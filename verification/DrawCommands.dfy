// Draw lists as values: the command buffer that partitions an index buffer, what a renderer
// makes of it, and the operations that edit the commands without changing what is drawn.
module DrawCommands {
  import opened Common

  // Compared for equality only.
  datatype Clip = Clip(id: int)
  datatype Texture = Texture(id: int)
  datatype Callback = Callback(id: int)

  const NO_TEXTURE := Texture(0)

  datatype Cmd = Cmd(elemCount: int, clip: Clip, tex: Texture, idxOffset: int, callback: Option<Callback>)

  datatype Event = Draw(index: int, clip: Clip, tex: Texture) | Call(cb: Callback)

  function Draws(idx: seq<int>, clip: Clip, tex: Texture): (es: seq<Event>)
    ensures |es| == |idx|
  {
    seq(|idx|, i requires 0 <= i < |idx| => Draw(idx[i], clip, tex))
  }

  function Sum(cmds: seq<Cmd>): int {
    if cmds == [] then 0 else Sum(cmds[..|cmds| - 1]) + cmds[|cmds| - 1].elemCount
  }

  // The commands partition n indices in order, and callbacks draw nothing themselves.
  ghost predicate Partitions(cmds: seq<Cmd>, n: int) {
    && (forall i :: 0 <= i < |cmds| ==>
          && 0 <= cmds[i].elemCount && cmds[i].idxOffset == Sum(cmds[..i])
          && (cmds[i].callback.Some? ==> cmds[i].elemCount == 0))
    && Sum(cmds) == n
  }

  // What a renderer does for one command, reading the indices at its offset.
  function RenderCmd(c: Cmd, idx: seq<int>): seq<Event>
    requires 0 <= c.elemCount && 0 <= c.idxOffset && c.idxOffset + c.elemCount <= |idx|
  {
    if c.callback.Some? then [Call(c.callback.value)]
    else Draws(idx[c.idxOffset..c.idxOffset + c.elemCount], c.clip, c.tex)
  }

  lemma {:induction false} SumIsMonotone(cmds: seq<Cmd>, i: int)
    requires 0 <= i <= |cmds| && forall k :: 0 <= k < |cmds| ==> 0 <= cmds[k].elemCount
    ensures 0 <= Sum(cmds[..i]) <= Sum(cmds)
    decreases |cmds| - i, i
  {
    if i < |cmds| {
      SumIsMonotone(cmds, i + 1);
      assert cmds[..i + 1][..i] == cmds[..i];
      SumIsNonNegative(cmds[..i]);
    } else {
      assert cmds[..i] == cmds;
      SumIsNonNegative(cmds);
    }
  }

  lemma {:induction false} SumIsNonNegative(cmds: seq<Cmd>)
    requires forall k :: 0 <= k < |cmds| ==> 0 <= cmds[k].elemCount
    ensures 0 <= Sum(cmds)
  {
    if cmds != [] {
      SumIsNonNegative(cmds[..|cmds| - 1]);
    }
  }

  // Everything a renderer does, command by command.
  function Render(cmds: seq<Cmd>, idx: seq<int>): seq<Event>
    requires Partitions(cmds, |idx|)
    decreases |cmds|
  {
    if cmds == [] then []
    else
      PartitionsLess(cmds, |idx|);
      var (front, last) := (cmds[..|cmds| - 1], cmds[|cmds| - 1]);
      Render(front, idx[..last.idxOffset]) + RenderCmd(last, idx)
  }

  lemma PartitionsLess(cmds: seq<Cmd>, n: int)
    requires Partitions(cmds, n) && cmds != []
    ensures var (front, last) := (cmds[..|cmds| - 1], cmds[|cmds| - 1]);
            && 0 <= last.idxOffset && last.idxOffset + last.elemCount == n && 0 <= last.elemCount
            && (last.callback.Some? ==> last.elemCount == 0)
            && Partitions(front, last.idxOffset)
  {
    var front := cmds[..|cmds| - 1];
    SumIsNonNegative(front);
    assert forall i :: 0 <= i < |front| ==> front[..i] == cmds[..i];
  }

  lemma PartitionsMore(front: seq<Cmd>, n: int, c: Cmd)
    requires Partitions(front, n) && 0 <= c.elemCount && c.idxOffset == n
    requires c.callback.Some? ==> c.elemCount == 0
    ensures Partitions(front + [c], n + c.elemCount)
  {
    var cmds := front + [c];
    assert cmds[..|front|] == front;
    assert forall i :: 0 <= i < |front| ==> front[..i] == cmds[..i];
  }

  // Adding a command at the end, with the indices it draws, adds what it does.
  lemma RenderMore(front: seq<Cmd>, idx: seq<int>, c: Cmd, more: seq<int>)
    requires Partitions(front, |idx|) && c.idxOffset == |idx| && c.elemCount == |more|
    requires c.callback.Some? ==> more == []
    ensures Partitions(front + [c], |idx + more|)
    ensures Render(front + [c], idx + more)
         == Render(front, idx) + (if c.callback.Some? then [Call(c.callback.value)] else Draws(more, c.clip, c.tex))
  {
    PartitionsMore(front, |idx|, c);
    var cmds := front + [c];
    assert cmds[..|cmds| - 1] == front && (idx + more)[..|idx|] == idx && (idx + more)[|idx|..|idx| + |more|] == more;
  }

  // --- The draw list ---------------------------------------------------------------

  // The parts of ImDrawList that matter here: the two buffers, the two stacks, and the clip
  // rectangle that counts when no other is pushed.
  datatype List = List(cmds: seq<Cmd>, idx: seq<int>, clips: seq<Clip>, texs: seq<Texture>, fullscreen: Clip)

  function CurrentClip(d: List): Clip {
    if d.clips == [] then d.fullscreen else d.clips[|d.clips| - 1]
  }

  function CurrentTexture(d: List): Texture {
    if d.texs == [] then NO_TEXTURE else d.texs[|d.texs| - 1]
  }

  function Last(d: List): Cmd
    requires d.cmds != []
  {
    d.cmds[|d.cmds| - 1]
  }

  function WithLast(d: List, c: Cmd): List
    requires d.cmds != []
  {
    d.(cmds := d.cmds[..|d.cmds| - 1] + [c])
  }

  function AddDrawCmd(d: List): List {
    d.(cmds := d.cmds + [Cmd(0, CurrentClip(d), CurrentTexture(d), |d.idx|, None)])
  }

  function AddCallback(d: List, cb: Callback): List {
    var d1 := if d.cmds == [] || Last(d).elemCount != 0 || Last(d).callback.Some? then AddDrawCmd(d) else d;
    AddDrawCmd(WithLast(d1, Last(d1).(callback := Some(cb))))
  }

  // The command before the last one, if the last one is empty and could be dropped in its favour.
  predicate MergesBack(d: List) {
    && |d.cmds| > 1 && Last(d).elemCount == 0
    && var prev := d.cmds[|d.cmds| - 2];
       prev.clip == CurrentClip(d) && prev.tex == CurrentTexture(d) && prev.callback.None?
  }

  function UpdateClipRect(d: List): List {
    if d.cmds == [] || (Last(d).elemCount != 0 && Last(d).clip != CurrentClip(d)) || Last(d).callback.Some?
    then AddDrawCmd(d)
    else if MergesBack(d) then d.(cmds := d.cmds[..|d.cmds| - 1])
    else WithLast(d, Last(d).(clip := CurrentClip(d)))
  }

  function UpdateTextureID(d: List): List {
    if d.cmds == [] || (Last(d).elemCount != 0 && Last(d).tex != CurrentTexture(d)) || Last(d).callback.Some?
    then AddDrawCmd(d)
    else if MergesBack(d) then d.(cmds := d.cmds[..|d.cmds| - 1])
    else WithLast(d, Last(d).(tex := CurrentTexture(d)))
  }

  function PushClipRect(d: List, c: Clip): List {
    UpdateClipRect(d.(clips := d.clips + [c]))
  }

  function PopClipRect(d: List): List
    requires d.clips != []
  {
    UpdateClipRect(d.(clips := d.clips[..|d.clips| - 1]))
  }

  function PushTextureID(d: List, x: Texture): List {
    UpdateTextureID(d.(texs := d.texs + [x]))
  }

  function PopTextureID(d: List): List
    requires d.texs != []
  {
    UpdateTextureID(d.(texs := d.texs[..|d.texs| - 1]))
  }

  // The new slots hold whatever the memory held.
  function PrimReserve(d: List, slots: seq<int>): List
    requires d.cmds != []
  {
    WithLast(d, Last(d).(elemCount := Last(d).elemCount + |slots|)).(idx := d.idx + slots)
  }

  function PrimUnreserve(d: List, n: nat): List
    requires d.cmds != [] && n <= |d.idx|
  {
    WithLast(d, Last(d).(elemCount := Last(d).elemCount - n)).(idx := d.idx[..|d.idx| - n])
  }

  // --- What every operation keeps --------------------------------------------------

  ghost predicate Wf(d: List) {
    Partitions(d.cmds, |d.idx|)
  }

  // A command is open for indices.
  predicate Open(d: List) {
    d.cmds != [] && Last(d).callback.None?
  }

  // And it carries the clip rectangle and the texture on top of the stacks.
  predicate Ready(d: List) {
    Open(d) && Last(d).clip == CurrentClip(d) && Last(d).tex == CurrentTexture(d)
  }

  function Shown(d: List): seq<Event>
    requires Wf(d)
  {
    Render(d.cmds, d.idx)
  }

  // An empty command without callback shows nothing, whatever it carries.
  lemma EmptyShowsNothing(front: seq<Cmd>, idx: seq<int>, c: Cmd)
    requires Partitions(front, |idx|) && c.elemCount == 0 && c.idxOffset == |idx| && c.callback.None?
    ensures Partitions(front + [c], |idx|) && Render(front + [c], idx) == Render(front, idx)
  {
    RenderMore(front, idx, c, []);
    assert idx + [] == idx;
  }

  lemma AddDrawCmdKeeps(d: List)
    requires Wf(d)
    ensures var d' := AddDrawCmd(d); Wf(d') && Ready(d') && Shown(d') == Shown(d)
  {
    hide Render, Partitions;
    EmptyShowsNothing(d.cmds, d.idx, Cmd(0, CurrentClip(d), CurrentTexture(d), |d.idx|, None));
  }

  // The front of the buffer and the last command, apart.
  lemma Apart(d: List)
    requires Wf(d) && d.cmds != []
    ensures var (front, c) := (d.cmds[..|d.cmds| - 1], Last(d));
            && d.cmds == front + [c] && 0 <= c.elemCount && 0 <= c.idxOffset && c.idxOffset + c.elemCount == |d.idx|
            && Partitions(front, c.idxOffset) && (c.callback.Some? ==> c.elemCount == 0)
  {
    PartitionsLess(d.cmds, |d.idx|);
  }

  // Changing what an empty last command carries changes nothing shown.
  lemma RelabelEmpty(d: List, c: Cmd)
    requires Wf(d) && Open(d) && Last(d).elemCount == 0
    requires c.elemCount == 0 && c.idxOffset == Last(d).idxOffset && c.callback.None?
    ensures Wf(WithLast(d, c)) && Shown(WithLast(d, c)) == Shown(d)
  {
    Apart(d);
    var front := d.cmds[..|d.cmds| - 1];
    EmptyShowsNothing(front, d.idx, c);
    EmptyShowsNothing(front, d.idx, Last(d));
  }

  lemma DropEmpty(d: List)
    requires Wf(d) && Open(d) && Last(d).elemCount == 0
    ensures var d' := d.(cmds := d.cmds[..|d.cmds| - 1]); Wf(d') && Shown(d') == Shown(d)
  {
    Apart(d);
    EmptyShowsNothing(d.cmds[..|d.cmds| - 1], d.idx, Last(d));
  }

  // Changing what the last command carries to what it carries already, or while it is empty.
  lemma RelabelKeeps(d: List, c: Cmd)
    requires Wf(d) && Open(d) && (c == Last(d) || Last(d).elemCount == 0)
    requires c.elemCount == Last(d).elemCount && c.idxOffset == Last(d).idxOffset && c.callback.None?
    ensures Wf(WithLast(d, c)) && Shown(WithLast(d, c)) == Shown(d) && Open(WithLast(d, c))
  {
    if c == Last(d) {
      assert WithLast(d, c) == d;
    } else {
      RelabelEmpty(d, c);
    }
  }

  // Both updates leave what is shown alone, in every state.
  lemma UpdateClipRectKeeps(d: List)
    requires Wf(d)
    ensures Wf(UpdateClipRect(d)) && Shown(UpdateClipRect(d)) == Shown(d) && Open(UpdateClipRect(d))
  {
    AddDrawCmdKeeps(d);
    hide Wf, Shown;
    if Open(d) && MergesBack(d) {
      DropEmpty(d);
    } else if Open(d) && (Last(d).elemCount == 0 || Last(d).clip == CurrentClip(d)) {
      RelabelKeeps(d, Last(d).(clip := CurrentClip(d)));
    }
  }

  lemma UpdateTextureIDKeeps(d: List)
    requires Wf(d)
    ensures Wf(UpdateTextureID(d)) && Shown(UpdateTextureID(d)) == Shown(d) && Open(UpdateTextureID(d))
  {
    AddDrawCmdKeeps(d);
    hide Wf, Shown;
    if Open(d) && MergesBack(d) {
      DropEmpty(d);
    } else if Open(d) && (Last(d).elemCount == 0 || Last(d).tex == CurrentTexture(d)) {
      RelabelKeeps(d, Last(d).(tex := CurrentTexture(d)));
    }
  }

  // Where the other half is in order, each update restores readiness ...
  lemma UpdateMakesReady(d: List)
    requires Open(d)
    ensures Last(d).tex == CurrentTexture(d) ==> Ready(UpdateClipRect(d))
    ensures Last(d).clip == CurrentClip(d) ==> Ready(UpdateTextureID(d))
  {
  }

  lemma ClipIsUpdated(d: List)
    ensures var d' := UpdateClipRect(d);
            Open(d') && CurrentClip(d') == CurrentClip(d) && CurrentTexture(d') == CurrentTexture(d)
            && Last(d').clip == CurrentClip(d)
  {
  }

  // ... and the two in a row do from anywhere.
  lemma UpdatesMakeReady(d: List)
    ensures Ready(UpdateTextureID(UpdateClipRect(d)))
  {
    ClipIsUpdated(d);
    hide UpdateClipRect;
    UpdateMakesReady(UpdateClipRect(d));
  }

  lemma AddCallbackShows(d: List, cb: Callback)
    requires Wf(d)
    ensures var d' := AddCallback(d, cb); Wf(d') && Ready(d') && Shown(d') == Shown(d) + [Call(cb)]
  {
    AddDrawCmdKeeps(d);
    var d1 := if d.cmds == [] || Last(d).elemCount != 0 || Last(d).callback.Some? then AddDrawCmd(d) else d;
    Apart(d1);
    var front, c := d1.cmds[..|d1.cmds| - 1], Last(d1).(callback := Some(cb));
    DropEmpty(d1);
    RenderMore(front, d1.idx, c, []);
    assert d1.idx + [] == d1.idx;
    AddDrawCmdKeeps(WithLast(d1, c));
  }

  // Reserved indices are shown under the clip rectangle and texture of the open command, and
  // all that was shown before stays as it was.
  lemma PrimReserveShows(d: List, slots: seq<int>)
    requires Wf(d) && Open(d)
    ensures Wf(PrimReserve(d, slots))
    ensures Shown(PrimReserve(d, slots)) == Shown(d) + Draws(slots, Last(d).clip, Last(d).tex)
  {
    hide Render, Partitions, Draws;
    Apart(d);
    var front, c := d.cmds[..|d.cmds| - 1], Last(d);
    var (below, own) := (d.idx[..c.idxOffset], d.idx[c.idxOffset..]);
    GrowLast(front, below, own, slots, c);
    assert d.idx == below + own;
  }

  lemma PrimReserveKeepsReady(d: List, slots: seq<int>)
    requires Open(d)
    ensures Open(PrimReserve(d, slots)) && (Ready(d) <==> Ready(PrimReserve(d, slots)))
  {
  }

  lemma GrowLast(front: seq<Cmd>, below: seq<int>, own: seq<int>, slots: seq<int>, c: Cmd)
    requires Partitions(front, |below|) && c.idxOffset == |below| && c.elemCount == |own| && c.callback.None?
    ensures Partitions(front + [c], |below + own|)
    ensures var c' := c.(elemCount := c.elemCount + |slots|);
            && Partitions(front + [c'], |below + own + slots|)
            && Render(front + [c'], below + own + slots)
               == Render(front + [c], below + own) + Draws(slots, c.clip, c.tex)
  {
    hide Render, Partitions, Draws;
    var c' := c.(elemCount := c.elemCount + |slots|);
    RenderMore(front, below, c, own);
    RenderMore(front, below, c', own + slots);
    DrawsSplit(own, slots, c.clip, c.tex);
    assert below + own + slots == below + (own + slots);
  }

  lemma DrawsSplit(a: seq<int>, b: seq<int>, clip: Clip, tex: Texture)
    ensures Draws(a + b, clip, tex) == Draws(a, clip, tex) + Draws(b, clip, tex)
  {
  }

  // Releasing what the last reservation took is its inverse.
  lemma UnreserveUndoesReserve(d: List, slots: seq<int>)
    requires Wf(d) && Open(d)
    ensures PrimUnreserve(PrimReserve(d, slots), |slots|) == d
  {
    Apart(d);
    var d' := PrimReserve(d, slots);
    assert d'.cmds[..|d'.cmds| - 1] == d.cmds[..|d.cmds| - 1];
  }
}
