// The draw list and its channel splitter as the objects they are: methods that edit buffers in
// place, each proved to do to the object what the functions of DrawCommands and DrawChannels do
// to its value.
module DrawLists {
  import opened Common
  import opened DrawCommands
  import opened DrawChannels

  class DrawList {
    var cmdBuffer: seq<Cmd>
    var idxBuffer: seq<int>
    var clipRectStack: seq<Clip>
    var textureIdStack: seq<Texture>
    const clipRectFullscreen: Clip

    function Value(): List
      reads this
    {
      List(cmdBuffer, idxBuffer, clipRectStack, textureIdStack, clipRectFullscreen)
    }

    function Buffers(): Channel
      reads this
    {
      Channel(cmdBuffer, idxBuffer)
    }

    // The list as it is cleared for a new frame.
    constructor (fullscreen: Clip)
      ensures Value() == List([], [], [], [], fullscreen)
    {
      cmdBuffer, idxBuffer, clipRectStack, textureIdStack := [], [], [], [];
      clipRectFullscreen := fullscreen;
    }

    method AddDrawCmd()
      modifies `cmdBuffer
      ensures Value() == DrawCommands.AddDrawCmd(old(Value()))
      ensures Wf(old(Value())) ==> Wf(Value()) && Ready(Value()) && Shown(Value()) == old(Shown(Value()))
    {
      var clip := if |clipRectStack| > 0 then clipRectStack[|clipRectStack| - 1] else clipRectFullscreen;
      var tex := if |textureIdStack| > 0 then textureIdStack[|textureIdStack| - 1] else NO_TEXTURE;
      if Wf(Value()) {
        AddDrawCmdKeeps(Value());
      }
      hide Wf, Shown, Ready;
      cmdBuffer := cmdBuffer + [Cmd(0, clip, tex, |idxBuffer|, None)];
    }

    method AddCallback(cb: Callback)
      modifies `cmdBuffer
      ensures Value() == DrawCommands.AddCallback(old(Value()), cb)
      ensures Wf(old(Value())) ==> Wf(Value()) && Ready(Value()) && Shown(Value()) == old(Shown(Value())) + [Call(cb)]
    {
      if Wf(Value()) {
        AddCallbackShows(Value(), cb);
      }
      hide Wf, Shown, Ready;
      if |cmdBuffer| == 0 || cmdBuffer[|cmdBuffer| - 1].elemCount != 0 || cmdBuffer[|cmdBuffer| - 1].callback.Some? {
        AddDrawCmd();
      }
      var c := cmdBuffer[|cmdBuffer| - 1];
      WriteLast(c.(callback := Some(cb)));
      AddDrawCmd();
    }

    // Writing through a pointer to the last command.
    method WriteLast(c: Cmd)
      requires cmdBuffer != []
      modifies `cmdBuffer
      ensures Value() == WithLast(old(Value()), c)
    {
      cmdBuffer := cmdBuffer[|cmdBuffer| - 1 := c];
      assert cmdBuffer == old(cmdBuffer)[..|old(cmdBuffer)| - 1] + [c];
    }

    method UpdateClipRect()
      modifies `cmdBuffer
      ensures Value() == DrawCommands.UpdateClipRect(old(Value()))
      ensures Wf(old(Value())) ==> Wf(Value()) && Open(Value()) && Shown(Value()) == old(Shown(Value()))
    {
      if Wf(Value()) {
        UpdateClipRectKeeps(Value());
      }
      hide Wf, Shown, Open;
      var clip, tex := CurrentClip(Value()), CurrentTexture(Value());
      if |cmdBuffer| == 0
         || (cmdBuffer[|cmdBuffer| - 1].elemCount != 0 && cmdBuffer[|cmdBuffer| - 1].clip != clip)
         || cmdBuffer[|cmdBuffer| - 1].callback.Some?
      {
        AddDrawCmd();
        return;
      }
      var c := cmdBuffer[|cmdBuffer| - 1];
      if c.elemCount == 0 && |cmdBuffer| > 1 && cmdBuffer[|cmdBuffer| - 2].clip == clip
         && cmdBuffer[|cmdBuffer| - 2].tex == tex && cmdBuffer[|cmdBuffer| - 2].callback.None?
      {
        cmdBuffer := cmdBuffer[..|cmdBuffer| - 1];
      } else {
        WriteLast(c.(clip := clip));
      }
    }

    method UpdateTextureID()
      modifies `cmdBuffer
      ensures Value() == DrawCommands.UpdateTextureID(old(Value()))
      ensures Wf(old(Value())) ==> Wf(Value()) && Open(Value()) && Shown(Value()) == old(Shown(Value()))
    {
      if Wf(Value()) {
        UpdateTextureIDKeeps(Value());
      }
      hide Wf, Shown, Open;
      var clip, tex := CurrentClip(Value()), CurrentTexture(Value());
      if |cmdBuffer| == 0
         || (cmdBuffer[|cmdBuffer| - 1].elemCount != 0 && cmdBuffer[|cmdBuffer| - 1].tex != tex)
         || cmdBuffer[|cmdBuffer| - 1].callback.Some?
      {
        AddDrawCmd();
        return;
      }
      var c := cmdBuffer[|cmdBuffer| - 1];
      if c.elemCount == 0 && |cmdBuffer| > 1 && cmdBuffer[|cmdBuffer| - 2].tex == tex
         && cmdBuffer[|cmdBuffer| - 2].clip == clip && cmdBuffer[|cmdBuffer| - 2].callback.None?
      {
        cmdBuffer := cmdBuffer[..|cmdBuffer| - 1];
      } else {
        WriteLast(c.(tex := tex));
      }
    }

    method PushClipRect(c: Clip)
      modifies `cmdBuffer, `clipRectStack
      ensures Value() == DrawCommands.PushClipRect(old(Value()), c)
    {
      clipRectStack := clipRectStack + [c];
      UpdateClipRect();
    }

    method PopClipRect()
      requires clipRectStack != []
      modifies `cmdBuffer, `clipRectStack
      ensures Value() == DrawCommands.PopClipRect(old(Value()))
    {
      clipRectStack := clipRectStack[..|clipRectStack| - 1];
      UpdateClipRect();
    }

    method PushTextureID(x: Texture)
      modifies `cmdBuffer, `textureIdStack
      ensures Value() == DrawCommands.PushTextureID(old(Value()), x)
    {
      textureIdStack := textureIdStack + [x];
      UpdateTextureID();
    }

    method PopTextureID()
      requires textureIdStack != []
      modifies `cmdBuffer, `textureIdStack
      ensures Value() == DrawCommands.PopTextureID(old(Value()))
    {
      textureIdStack := textureIdStack[..|textureIdStack| - 1];
      UpdateTextureID();
    }

    // The caller gives what it will write into the reserved slots.
    method PrimReserve(slots: seq<int>)
      requires cmdBuffer != []
      modifies `cmdBuffer, `idxBuffer
      ensures Value() == DrawCommands.PrimReserve(old(Value()), slots)
    {
      var c := cmdBuffer[|cmdBuffer| - 1];
      WriteLast(c.(elemCount := c.elemCount + |slots|));
      idxBuffer := idxBuffer + slots;
    }

    method PrimUnreserve(n: nat)
      requires cmdBuffer != [] && n <= |idxBuffer|
      modifies `cmdBuffer, `idxBuffer
      ensures Value() == DrawCommands.PrimUnreserve(old(Value()), n)
    {
      var c := cmdBuffer[|cmdBuffer| - 1];
      WriteLast(c.(elemCount := c.elemCount - n));
      idxBuffer := idxBuffer[..|idxBuffer| - n];
    }
  }

  // --- The splitter ------------------------------------------------------------------

  // The base and channels 1 to n - 1, put side by side as they are.
  function Gathered(base: Channel, chs: seq<Channel>, n: int): Channel
    requires 1 <= n && (n == 1 || n <= |chs|)
    decreases n
  {
    if n == 1 then base
    else
      var front := Gathered(base, chs, n - 1);
      Channel(front.cmds + chs[n - 1].cmds, front.idx + chs[n - 1].idx)
  }

  lemma {:induction false} GatheredDependsOn(base: Channel, chs: seq<Channel>, chs': seq<Channel>, n: int)
    requires 1 <= n && (n == 1 || (n <= |chs| && n <= |chs'|))
    requires forall k :: 1 <= k < n ==> chs[k] == chs'[k]
    ensures Gathered(base, chs, n) == Gathered(base, chs', n)
    decreases n
  {
    if n > 1 {
      GatheredDependsOn(base, chs, chs', n - 1);
    }
  }

  lemma {:induction false} GatheredGrows(base: Channel, chs: seq<Channel>, m: int, n: int)
    requires 1 <= m <= n <= |chs|
    ensures |Gathered(base, chs, m).cmds| <= |Gathered(base, chs, n).cmds|
    ensures |Gathered(base, chs, m).idx| <= |Gathered(base, chs, n).idx|
    decreases n
  {
    if m < n {
      GatheredGrows(base, chs, m, n - 1);
    }
  }

  lemma GatheredMore(base: Channel, chs: seq<Channel>, n: int)
    requires 1 <= n < |chs|
    ensures var front := Gathered(base, chs, n);
            Gathered(base, chs, n + 1) == Channel(front.cmds + chs[n].cmds, front.idx + chs[n].idx)
  {
  }

  // Copying over the elements from a position on.
  function CopiedAt<T>(s: seq<T>, at: int, more: seq<T>): (r: seq<T>)
    requires 0 <= at && at + |more| <= |s|
    ensures |r| == |s| && r[..at + |more|] == s[..at] + more && r[at + |more|..] == s[at + |more|..]
  {
    s[..at] + more + s[at + |more|..]
  }

  // Where the last command so far is: nowhere, in the base, or at the end of a channel.
  predicate Locates(last: int, base: Channel, chs: seq<Channel>, n: int)
    requires 1 <= n <= |chs|
  {
    && -1 <= last < n
    && (if last <= 0 then (base.cmds == [] <==> last == -1) else chs[last].cmds != [])
    && forall k :: 1 <= k < n && last < k ==> chs[k].cmds == []
  }

  function Located(last: int, base: Channel, chs: seq<Channel>): Cmd
    requires 0 <= last < |chs| && (if last == 0 then base.cmds != [] else chs[last].cmds != [])
  {
    if last == 0 then base.cmds[|base.cmds| - 1] else chs[last].cmds[|chs[last].cmds| - 1]
  }

  lemma {:induction false} LocatedIsLast(last: int, base: Channel, chs: seq<Channel>, n: int)
    requires 1 <= n <= |chs| && Locates(last, base, chs, n)
    ensures var cmds := Gathered(base, chs, n).cmds;
            (last == -1 <==> cmds == []) && (last != -1 ==> cmds[|cmds| - 1] == Located(last, base, chs))
    decreases n
  {
    if n > 1 && last < n - 1 {
      LocatedIsLast(last, base, chs, n - 1);
      assert chs[n - 1].cmds == [];
    }
  }

  // Overwriting the last command where it is overwrites the last of all.
  function Overwritten(last: int, chs: seq<Channel>, c: Cmd): seq<Channel>
    requires 0 <= last < |chs| && (last > 0 ==> chs[last].cmds != [])
  {
    if last == 0 then chs
    else chs[last := chs[last].(cmds := chs[last].cmds[..|chs[last].cmds| - 1] + [c])]
  }

  function OverwrittenBase(last: int, base: Channel, c: Cmd): Channel
    requires last == 0 ==> base.cmds != []
  {
    if last == 0 then base.(cmds := base.cmds[..|base.cmds| - 1] + [c]) else base
  }

  lemma {:induction false} OverwriteLast(last: int, base: Channel, chs: seq<Channel>, n: int, c: Cmd)
    requires 1 <= n <= |chs| && Locates(last, base, chs, n) && last != -1
    ensures var all := Gathered(base, chs, n);
            && all.cmds != []
            && Gathered(OverwrittenBase(last, base, c), Overwritten(last, chs, c), n)
               == all.(cmds := all.cmds[..|all.cmds| - 1] + [c])
    decreases n
  {
    var base', chs' := OverwrittenBase(last, base, c), Overwritten(last, chs, c);
    LocatedIsLast(last, base, chs, n);
    if n == 1 {
    } else if last < n - 1 {
      OverwriteLast(last, base, chs, n - 1, c);
      assert chs[n - 1].cmds == [] && chs'[n - 1] == chs[n - 1];
      NothingBehind(Gathered(base, chs, n - 1).cmds);
      NothingBehind(Gathered(base', chs', n - 1).cmds);
    } else {
      GatheredDependsOn(base, chs, chs', n - 1);
      var front, own := Gathered(base, chs, n - 1), chs[n - 1].cmds;
      assert front.cmds + (own[..|own| - 1] + [c]) == (front.cmds + own)[..|front.cmds + own| - 1] + [c];
    }
  }

  // The last command has grown by the first of cs, if they agree, and the rest of cs is left.
  predicate JoinedInto(acc: Channel, cs: seq<Cmd>, now: Channel, rest: seq<Cmd>, joined: int) {
    if Joins(acc, cs) then
      var c := acc.cmds[|acc.cmds| - 1];
      && joined == cs[0].elemCount && rest == cs[1..]
      && now == acc.(cmds := acc.cmds[..|acc.cmds| - 1] + [c.(elemCount := c.elemCount + joined)])
    else joined == 0 && rest == cs && now == acc
  }

  lemma AppendByJoining(acc: Channel, ch: Channel, now: Channel, rest: seq<Cmd>, joined: int)
    requires JoinedInto(acc, ch.cmds, now, rest, joined)
    ensures Append(acc, ch.cmds, ch.idx) == Channel(now.cmds + Rebased(rest, |acc.idx| + joined), now.idx + ch.idx)
    ensures joined + Sum(rest) == Sum(ch.cmds)
    ensures |now.cmds| == |acc.cmds| && now.idx == acc.idx
  {
    if ch.cmds != [] {
      SumFront(ch.cmds);
    }
  }

  class Splitter {
    var current: int
    var count: int
    var channels: seq<Channel>

    ghost function Value(d: DrawList): Split
      reads this, d
    {
      Split(d.Value(), current, count, channels)
    }

    constructor ()
      ensures current == 0 && count == 1 && channels == []
    {
      current, count, channels := 0, 1, [];
    }

    // The old channels are kept for their storage, whatever they hold.
    method SplitInto(d: DrawList, n: int)
      requires current == 0 && count == 1 && 1 <= n && d.clipRectStack != [] && d.textureIdStack != []
      modifies this
      ensures Value(d) == DrawChannels.SplitInto(old(Value(d)), n)
    {
      ghost var was := channels;
      var oldCount := |channels|;
      if oldCount < n {
        channels := channels + seq(n - oldCount, i => Channel([], []));
      }
      count := n;
      channels := channels[0 := Channel([], [])];
      ghost var each := FreshChannel(d.Value());
      var i := 1;
      while i < n
        invariant 1 <= i <= n && current == 0 && count == n
        invariant |channels| == if |was| < n then n else |was|
        invariant channels[0] == Channel([], []) && forall k :: 1 <= k < i ==> channels[k] == each
        invariant forall k :: n <= k < |channels| ==> channels[k] == was[k]
      {
        channels := channels[i := Channel([], [])];
        if |channels[i].cmds| == 0 {
          var c := Cmd(0, d.clipRectStack[|d.clipRectStack| - 1], d.textureIdStack[|d.textureIdStack| - 1], 0, None);
          channels := channels[i := channels[i].(cmds := channels[i].cmds + [c])];
        }
        i := i + 1;
      }
    }

    // The buffers of the list and of the channel change places.
    method SetCurrentChannel(d: DrawList, i: int)
      requires 0 <= current < count && 0 <= i < count && (count <= |channels| || count == 1)
      modifies this, d`cmdBuffer, d`idxBuffer
      ensures Value(d) == DrawChannels.SetCurrentChannel(old(Value(d)), i)
    {
      if current == i {
        return;
      }
      channels := channels[current := d.Buffers()];
      current := i;
      d.cmdBuffer, d.idxBuffer := channels[i].cmds, channels[i].idx;
    }

    // --- Merging, step by step -------------------------------------------------------

    // The commands so far lie in the list and, for channels 1 to i - 1, still in the channels.
    ghost predicate Gathering(d: DrawList, s: Split, i: int, last: int, idxOffset: int)
      reads this, d
    {
      && SplitWf(s) && 1 <= i <= s.count && 1 < s.count
      && |channels| == |s.channels| && count == s.count && current == 0
      && d.Value() == s.list.(cmds := d.cmdBuffer, idx := d.idxBuffer)
      && (forall k :: i <= k < s.count ==> channels[k] == ChannelAt(s, k))
      && Locates(last, d.Buffers(), channels, i)
      && Gathered(d.Buffers(), channels, i) == Fold(s, i)
      && idxOffset == |Fold(s, i).idx|
    }

    // Back to channel 0, without its empty last command.
    method TakeBase(d: DrawList, ghost s: Split)
      requires s == Value(d) && 0 <= current < count <= |channels| && 1 < count
      modifies this, d`cmdBuffer, d`idxBuffer
      ensures |channels| == |s.channels| && count == s.count && current == 0
      ensures d.Value() == s.list.(cmds := d.cmdBuffer, idx := d.idxBuffer)
      ensures d.Buffers() == Trimmed(ChannelAt(s, 0))
      ensures forall k :: 1 <= k < s.count ==> channels[k] == ChannelAt(s, k)
    {
      SetCurrentChannel(d, 0);
      assert d.Buffers() == ChannelAt(s, 0);
      if |d.cmdBuffer| != 0 && d.cmdBuffer[|d.cmdBuffer| - 1].elemCount == 0 {
        d.cmdBuffer := d.cmdBuffer[..|d.cmdBuffer| - 1];
      }
    }

    method Start(d: DrawList, ghost s: Split) returns (last: int, idxOffset: int)
      requires s == Value(d) && SplitWf(s) && 1 < count
      modifies this, d`cmdBuffer, d`idxBuffer
      ensures Gathering(d, s, 1, last, idxOffset)
    {
      TakeBase(d, s);
      BaseEnds(s);
      hide Sound, Usable;
      last := if |d.cmdBuffer| > 0 then 0 else -1;
      idxOffset := 0;
      if last == 0 {
        idxOffset := d.cmdBuffer[|d.cmdBuffer| - 1].idxOffset + d.cmdBuffer[|d.cmdBuffer| - 1].elemCount;
      }
    }

    // Writing through the pointer to the last command so far.
    method WriteAt(d: DrawList, last: int, c: Cmd)
      requires 0 <= last < |channels|
      requires if last == 0 then d.cmdBuffer != [] else channels[last].cmds != []
      modifies `channels, d`cmdBuffer
      ensures channels == Overwritten(last, old(channels), c) &&
              d.Buffers() == OverwrittenBase(last, old(d.Buffers()), c)
      ensures |d.cmdBuffer| == old(|d.cmdBuffer|)
    {
      if last == 0 {
        d.WriteLast(c);
      } else {
        var cmds := channels[last].cmds;
        channels := channels[last := channels[last].(cmds := cmds[..|cmds| - 1] + [c])];
      }
    }

    // Lets the first command of channel i join the last one so far, if they agree.
    method JoinFirst(d: DrawList, i: int, last: int) returns (joined: int)
      requires 1 <= i < |channels| && Locates(last, d.Buffers(), channels, i)
      modifies `channels, d`cmdBuffer
      ensures |channels| == old(|channels|) && channels[i].idx == old(channels[i].idx)
      ensures |d.cmdBuffer| == old(|d.cmdBuffer|)
      ensures forall k :: i < k < |channels| ==> channels[k] == old(channels)[k]
      ensures Locates(last, d.Buffers(), channels, i)
      ensures JoinedInto(old(Gathered(d.Buffers(), channels, i)), old(channels[i].cmds),
                         Gathered(d.Buffers(), channels, i), channels[i].cmds, joined)
    {
      joined := 0;
      ghost var base, was := d.Buffers(), channels;
      LocatedIsLast(last, base, channels, i);
      if |channels[i].cmds| > 0 && last != -1 {
        var first := channels[i].cmds[0];
        var c := if last == 0 then d.cmdBuffer[|d.cmdBuffer| - 1] else channels[last].cmds[|channels[last].cmds| - 1];
        if CanMerge(c, first) {
          joined := first.elemCount;
          var grown := c.(elemCount := c.elemCount + joined);
          OverwriteLast(last, base, channels, i, grown);
          WriteAt(d, last, grown);
          channels := channels[i := channels[i].(cmds := channels[i].cmds[1..])];
          GatheredDependsOn(d.Buffers(), Overwritten(last, was, grown), channels, i);
        }
      }
    }

    // Gives the commands of channel i their offsets in the index buffer to come.
    method Rebase(i: int, start: int) returns (end: int)
      requires 0 <= i < |channels|
      modifies `channels
      ensures channels == old(channels)[i := old(channels)[i].(cmds := Rebased(old(channels[i].cmds), start))]
      ensures end == start + Sum(old(channels[i].cmds))
    {
      end := start;
      ghost var was := channels[i].cmds;
      var n := 0;
      assert was[..0] == [] && was[0..] == was;
      while n < |channels[i].cmds|
        invariant |channels| == |old(channels)|
        invariant channels == old(channels)[i := old(channels)[i].(cmds := channels[i].cmds)]
        invariant 0 <= n <= |channels[i].cmds| == |was|
        invariant channels[i].cmds[n..] == was[n..]
        invariant Rebased(was, start) == channels[i].cmds[..n] + Rebased(was[n..], end)
        invariant end == start + Sum(was[..n])
      {
        ghost var before := channels[i].cmds;
        var c := channels[i].cmds[n];
        assert was[n] == c;
        channels := channels[i := channels[i].(cmds := channels[i].cmds[n := c.(idxOffset := end)])];
        RebaseOne(before, was, n, end);
        end := end + c.elemCount;
        n := n + 1;
      }
      assert was[..n] == was && channels[i].cmds[..n] + [] == channels[i].cmds;
    }

    // One round of the first loop.
    method TakeIn(d: DrawList, i: int, last: int, idxOffset: int) returns (last': int, idxOffset': int)
      requires 1 <= i < |channels| && Locates(last, d.Buffers(), channels, i)
      requires idxOffset == |Gathered(d.Buffers(), channels, i).idx|
      modifies `channels, d`cmdBuffer
      ensures |channels| == old(|channels|)
      ensures forall k :: i < k < |channels| ==> channels[k] == old(channels)[k]
      ensures |d.cmdBuffer| == old(|d.cmdBuffer|)
      ensures |Gathered(d.Buffers(), channels, i).cmds|
              == old(|Gathered(d.Buffers(), channels, i).cmds|)
      ensures |Gathered(d.Buffers(), channels, i).idx|
              == old(|Gathered(d.Buffers(), channels, i).idx|)
      ensures Locates(last', d.Buffers(), channels, i + 1)
      ensures var t := Trimmed(old(channels)[i]);
              && idxOffset' == idxOffset + Sum(t.cmds)
              && Gathered(d.Buffers(), channels, i + 1)
                 == Append(old(Gathered(d.Buffers(), channels, i)), t.cmds, t.idx)
    {
      hide Gathered;
      ghost var base, was := d.Buffers(), channels;
      Trim(i);
      ghost var t := channels[i];
      GatheredDependsOn(base, was, channels, i);
      var joined := JoinFirst(d, i, last);
      hide Trimmed, CanMerge, Sum;
      ghost var base', mid := d.Buffers(), channels;
      AppendByJoining(Gathered(base, was, i), t, Gathered(base', mid, i), mid[i].cmds, joined);
      hide Append, JoinedInto, Rebased;
      last' := if |channels[i].cmds| > 0 then i else last;
      idxOffset' := Rebase(i, idxOffset + joined);
      GatheredDependsOn(base', mid, channels, i);
      GatheredMore(base', channels, i);
    }

    method TakeChannel(d: DrawList, i: int, last: int, idxOffset: int, ghost s: Split)
      returns (last': int, idxOffset': int)
      requires Gathering(d, s, i, last, idxOffset) && i < count
      modifies `channels, d`cmdBuffer
      ensures Gathering(d, s, i + 1, last', idxOffset')
      ensures |d.cmdBuffer| == old(|d.cmdBuffer|)
      ensures |Gathered(d.Buffers(), channels, i).cmds|
              == old(|Gathered(d.Buffers(), channels, i).cmds|)
      ensures |Gathered(d.Buffers(), channels, i).idx|
              == old(|Gathered(d.Buffers(), channels, i).idx|)
    {
      TrimmedCounts(s, i);
      FoldMore(s, i);
      hide Usable, Sound, SplitWf, Fold, Trimmed, CanMerge, Rebased, Sum, Gathered, Locates;
      last', idxOffset' := TakeIn(d, i, last, idxOffset);
    }

    // The second loop: the buffers of the list grow once, and the channels are copied behind one
    // another into the room made.
    method WriteOut(d: DrawList, newCmds: nat, newIdx: nat)
      requires 1 <= count <= |channels|
      requires |d.cmdBuffer| + newCmds == |Gathered(d.Buffers(), channels, count).cmds|
      requires |d.idxBuffer| + newIdx == |Gathered(d.Buffers(), channels, count).idx|
      modifies d`cmdBuffer, d`idxBuffer
      ensures d.Buffers() == old(Gathered(d.Buffers(), channels, count))
    {
      ghost var base := d.Buffers();
      ghost var all := Gathered(base, channels, count);
      var cmdWrite, idxWrite := |d.cmdBuffer|, |d.idxBuffer|;
      d.cmdBuffer := d.cmdBuffer + seq(newCmds, k => Cmd(0, Clip(0), NO_TEXTURE, 0, None));
      d.idxBuffer := d.idxBuffer + seq(newIdx, k => 0);
      var i := 1;
      while i < count
        invariant 1 <= i <= count && |d.cmdBuffer| == |all.cmds| && |d.idxBuffer| == |all.idx|
        invariant 0 <= cmdWrite <= |d.cmdBuffer| && d.cmdBuffer[..cmdWrite] == Gathered(base, channels, i).cmds
        invariant 0 <= idxWrite <= |d.idxBuffer| && d.idxBuffer[..idxWrite] == Gathered(base, channels, i).idx
      {
        GatheredGrows(base, channels, i + 1, count);
        d.cmdBuffer := CopiedAt(d.cmdBuffer, cmdWrite, channels[i].cmds);
        cmdWrite := cmdWrite + |channels[i].cmds|;
        d.idxBuffer := CopiedAt(d.idxBuffer, idxWrite, channels[i].idx);
        idxWrite := idxWrite + |channels[i].idx|;
        i := i + 1;
      }
    }

    // Merging: the list becomes the fold of all channels, so it shows them one after the other.
    method Merge(d: DrawList)
      requires SplitWf(Value(d))
      modifies this, d`cmdBuffer, d`idxBuffer
      ensures d.Value() == MergedList(old(Value(d)))
      ensures |channels| == old(|channels|) && (old(count > 1) ==> current == 0 && count == 1)
      ensures Wf(d.Value()) && Shown(d.Value()) == Flatten(old(Value(d)), old(count))
    {
      ghost var s := Value(d);
      MergeShows(s);
      if count <= 1 {
        return;
      }
      hide SplitWf, Wf, Shown, MergedList, Fold, Flatten;
      var newCmds, newIdx := GatherAll(d, s);
      Finish(d, newCmds, newIdx, s);
    }

    method Finish(d: DrawList, newCmds: nat, newIdx: nat, ghost s: Split)
      requires SplitWf(s) && 1 < s.count && AllGathered(d, s)
      requires Counted(d, s.count, newCmds, newIdx)
      modifies this, d`cmdBuffer, d`idxBuffer
      ensures d.Value() == MergedList(s)
      ensures |channels| == old(|channels|) && current == old(current) && count == 1
    {
      hide SplitWf, UpdateClipRect, UpdateTextureID, Fold;
      WriteOut(d, newCmds, newIdx);
      d.UpdateClipRect();
      d.UpdateTextureID();
      count := 1;
    }

    // All channels are in place.
    ghost predicate AllGathered(d: DrawList, s: Split)
      requires SplitWf(s) && 1 < s.count
      reads this, d
    {
      && |channels| == |s.channels| && count == s.count <= |channels| && current == 0
      && d.Value() == s.list.(cmds := d.cmdBuffer, idx := d.idxBuffer)
      && Gathered(d.Buffers(), channels, count) == Fold(s, s.count)
    }

    // How much room the commands and indices still in channels 1 to i - 1 need.
    ghost predicate Counted(d: DrawList, i: int, newCmds: nat, newIdx: nat)
      reads this, d
    {
      && 1 <= i <= |channels|
      && |d.cmdBuffer| + newCmds == |Gathered(d.Buffers(), channels, i).cmds|
      && |d.idxBuffer| + newIdx == |Gathered(d.Buffers(), channels, i).idx|
    }

    // The first loop: every channel in place, its commands at their offsets.
    method GatherAll(d: DrawList, ghost s: Split) returns (newCmds: nat, newIdx: nat)
      requires s == Value(d) && SplitWf(s) && 1 < count
      modifies this, d`cmdBuffer, d`idxBuffer
      ensures AllGathered(d, s) && Counted(d, s.count, newCmds, newIdx)
    {
      hide *;
      var last, idxOffset := Start(d, s);
      newCmds, newIdx := 0, 0;
      var i := 1;
      NoneCounted(d, s, last, idxOffset);
      while i < count
        invariant 1 <= i <= count == s.count
        invariant Gathering(d, s, i, last, idxOffset) && Counted(d, i, newCmds, newIdx)
      {
        last, idxOffset, newCmds, newIdx := TakeCounted(d, i, last, idxOffset, newCmds, newIdx, s);
        i := i + 1;
      }
      AllTaken(d, s, last, idxOffset);
    }

    lemma NoneCounted(d: DrawList, s: Split, last: int, idxOffset: int)
      requires Gathering(d, s, 1, last, idxOffset)
      ensures Counted(d, 1, 0, 0) && count == s.count > 1
    {
    }

    lemma AllTaken(d: DrawList, s: Split, last: int, idxOffset: int)
      requires Gathering(d, s, s.count, last, idxOffset)
      ensures SplitWf(s) && 1 < s.count && AllGathered(d, s)
    {
    }

    method TakeCounted(d: DrawList, i: int, last: int, idxOffset: int, newCmds: nat, newIdx: nat, ghost s: Split)
        returns (last': int, idxOffset': int, newCmds': nat, newIdx': nat)
      requires Gathering(d, s, i, last, idxOffset) && Counted(d, i, newCmds, newIdx) && i < count
      modifies `channels, d`cmdBuffer
      ensures Gathering(d, s, i + 1, last', idxOffset') && Counted(d, i + 1, newCmds', newIdx')
      ensures count == old(count)
    {
      last', idxOffset' := TakeChannel(d, i, last, idxOffset, s);
      GatheredMore(d.Buffers(), channels, i);
      hide SplitWf, Gathered, Locates, Fold;
      newCmds' := newCmds + |channels[i].cmds|;
      newIdx' := newIdx + |channels[i].idx|;
    }

    // Drops an empty last command of channel i.
    method Trim(i: int)
      requires 0 <= i < |channels|
      modifies `channels
      ensures channels == old(channels)[i := Trimmed(old(channels)[i])]
    {
      var cmds := channels[i].cmds;
      if |cmds| > 0 && cmds[|cmds| - 1].elemCount == 0 {
        channels := channels[i := channels[i].(cmds := cmds[..|cmds| - 1])];
      }
    }
  }

  lemma EndOfLast(ch: Channel)
    requires Sound(ch)
    ensures if ch.cmds == [] then ch.idx == []
            else var c := ch.cmds[|ch.cmds| - 1]; c.idxOffset + c.elemCount == |ch.idx|
  {
    if ch.cmds != [] {
      PartitionsLess(ch.cmds, |ch.idx|);
    }
  }

  lemma BaseEnds(s: Split)
    requires SplitWf(s)
    ensures var ch := Trimmed(ChannelAt(s, 0));
            && ch == Fold(s, 1)
            && if ch.cmds == [] then ch.idx == []
               else var c := ch.cmds[|ch.cmds| - 1]; c.idxOffset + c.elemCount == |ch.idx|
  {
    assert Usable(ChannelAt(s, 0));
    TrimmedShows(ChannelAt(s, 0));
    EndOfLast(Trimmed(ChannelAt(s, 0)));
  }

  lemma TrimmedCounts(s: Split, i: int)
    requires SplitWf(s) && 0 <= i < s.count
    ensures var t := Trimmed(ChannelAt(s, i)); Counts(t.cmds, |t.idx|)
  {
    assert Usable(ChannelAt(s, i));
    TrimmedShows(ChannelAt(s, i));
    SoundSpells(Trimmed(ChannelAt(s, i)));
  }

  lemma FoldMore(s: Split, i: int)
    requires SplitWf(s) && 1 <= i < s.count
    ensures var t := Trimmed(ChannelAt(s, i)); Fold(s, i + 1) == Append(Fold(s, i), t.cmds, t.idx)
  {
  }

  lemma RebaseOne(cmds: seq<Cmd>, was: seq<Cmd>, n: nat, offset: int)
    requires n < |cmds| == |was| && cmds[n..] == was[n..]
    ensures var cmds' := cmds[n := was[n].(idxOffset := offset)];
            && cmds'[n + 1..] == was[n + 1..]
            && cmds[..n] + Rebased(was[n..], offset)
               == cmds'[..n + 1] + Rebased(was[n + 1..], offset + was[n].elemCount)
            && Sum(was[..n + 1]) == Sum(was[..n]) + was[n].elemCount
  {
    var cmds' := cmds[n := was[n].(idxOffset := offset)];
    assert was[n..][1..] == was[n + 1..] && was[..n + 1][..n] == was[..n];
    assert cmds[n + 1..] == cmds[n..][1..] == was[n..][1..];
    assert cmds'[..n + 1] == cmds[..n] + [was[n].(idxOffset := offset)];
  }
}
