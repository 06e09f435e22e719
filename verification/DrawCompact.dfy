// No draw call too many: neighbouring commands that could be one are one, along any run and after
// merging channels.
module DrawCompact {
  import opened Common
  import opened DrawCommands
  import opened DrawChannels
  import opened DrawRuns

  // No two neighbouring commands have the same settings and no callback.
  predicate Compact(cs: seq<Cmd>) {
    forall i :: 0 <= i < |cs| - 1 ==> !CanMerge(cs[i], cs[i + 1])
  }

  lemma FrontIsCompact(cs: seq<Cmd>)
    requires Compact(cs) && cs != []
    ensures Compact(cs[..|cs| - 1])
  {
  }

  lemma CompactMore(front: seq<Cmd>, c: Cmd)
    requires Compact(front) && (front != [] ==> !CanMerge(front[|front| - 1], c))
    ensures Compact(front + [c])
  {
  }

  lemma LastApart(cs: seq<Cmd>)
    requires Compact(cs) && cs != []
    ensures cs == cs[..|cs| - 1] + [cs[|cs| - 1]] && Compact(cs[..|cs| - 1])
    ensures |cs| > 1 ==> !CanMerge(cs[|cs| - 2], cs[|cs| - 1])
  {
  }

  // Changing the count of the last command does not matter.
  lemma RecountIsCompact(d: List, n: int)
    requires Compact(d.cmds) && d.cmds != []
    ensures Compact(WithLast(d, Last(d).(elemCount := n)).cmds)
  {
    LastApart(d.cmds);
    CompactMore(d.cmds[..|d.cmds| - 1], Last(d).(elemCount := n));
  }

  lemma ClipKeepsCompact(d: List)
    requires Compact(d.cmds) && Open(d) && Last(d).tex == CurrentTexture(d)
    ensures Compact(UpdateClipRect(d).cmds)
  {
    hide Compact;
    LastApart(d.cmds);
    if Last(d).elemCount != 0 && Last(d).clip != CurrentClip(d) {
      CompactMore(d.cmds, Cmd(0, CurrentClip(d), CurrentTexture(d), |d.idx|, None));
    } else if !MergesBack(d) {
      CompactMore(d.cmds[..|d.cmds| - 1], Last(d).(clip := CurrentClip(d)));
    }
  }

  lemma TextureKeepsCompact(d: List)
    requires Compact(d.cmds) && Open(d) && Last(d).clip == CurrentClip(d)
    ensures Compact(UpdateTextureID(d).cmds)
  {
    hide Compact;
    LastApart(d.cmds);
    if Last(d).elemCount != 0 && Last(d).tex != CurrentTexture(d) {
      CompactMore(d.cmds, Cmd(0, CurrentClip(d), CurrentTexture(d), |d.idx|, None));
    } else if !MergesBack(d) {
      CompactMore(d.cmds[..|d.cmds| - 1], Last(d).(tex := CurrentTexture(d)));
    }
  }

  lemma CallbackKeepsCompact(d: List, cb: Callback)
    requires Compact(d.cmds) && Open(d)
    ensures Compact(AddCallback(d, cb).cmds)
  {
    CallbackGives(d, cb);
    LastApart(d.cmds);
    hide Compact, AddCallback;
    var front := if Last(d).elemCount != 0 then d.cmds else d.cmds[..|d.cmds| - 1];
    var c := (if Last(d).elemCount != 0 then Added(d) else Last(d)).(callback := Some(cb));
    CompactMore(front, c);
    CompactMore(front + [c], Added(d));
  }

  // The command the callback goes to is the open one if that is empty, or else a new one.
  lemma CallbackGives(d: List, cb: Callback)
    requires Open(d)
    ensures var c := if Last(d).elemCount != 0 then Added(d) else Last(d);
            var front := if Last(d).elemCount != 0 then d.cmds else d.cmds[..|d.cmds| - 1];
            AddCallback(d, cb).cmds == front + [c.(callback := Some(cb))] + [Added(d)]
  {
    assert (d.cmds + [Added(d)])[..|d.cmds|] == d.cmds;
  }

  // One operation on a list that is ready keeps it compact. Only an explicit new command can be one
  // too many.
  lemma StepKeepsCompact(d: List, op: Op)
    requires Compact(d.cmds) && Ready(d) && !op.NewCommand?
    requires (op.Unreserve? ==> op.n <= |d.idx|) && (op.PopClip? ==> d.clips != []) && (op.PopTexture? ==> d.texs != [])
    ensures Compact(StepList(d, op).cmds)
  {
    hide Compact, UpdateClipRect, UpdateTextureID, AddCallback;
    match op
    case Reserve(slots) => RecountIsCompact(d, Last(d).elemCount + |slots|);
    case Unreserve(n) => RecountIsCompact(d, Last(d).elemCount - n);
    case Invoke(cb) => CallbackKeepsCompact(d, cb);
    case PushClip(c) => ClipKeepsCompact(d.(clips := d.clips + [c]));
    case PopClip => ClipKeepsCompact(d.(clips := d.clips[..|d.clips| - 1]));
    case PushTexture(x) => TextureKeepsCompact(d.(texs := d.texs + [x]));
    case PopTexture => TextureKeepsCompact(d.(texs := d.texs[..|d.texs| - 1]));
    case Switch(_) =>
  }

  predicate NoNewCommands(ops: seq<Op>) {
    forall k :: 0 <= k < |ops| ==> !ops[k].NewCommand?
  }

  // Over any run on an unsplit list: what can be one draw call is one.
  lemma {:induction false} RunStaysCompact(s: Split, logs: seq<seq<Event>>, ops: seq<Op>)
    requires Logged(s, logs) && LegalRun(s, logs, ops) && s.count == 1 && Ready(s.list)
    requires Compact(s.list.cmds) && NoNewCommands(ops)
    ensures Compact(Run(s, logs, ops).0.list.cmds)
    decreases |ops|
  {
    if ops != [] {
      CurrentIsOpen(s, logs);
      StepIsLogged(s, logs, ops[0]);
      OpenRoom(s, logs, ops[0]);
      hide Logged, Compact, Ready, StepList;
      if !ops[0].Switch? {
        StepKeepsCompact(s.list, ops[0]);
      }
      RunStaysCompact(Step(s, ops[0]), RecordAt(s, logs, ops[0]), ops[1..]);
    }
  }

  lemma OpenRoom(s: Split, logs: seq<seq<Event>>, op: Op)
    requires Logged(s, logs) && Legal(s, op) && s.count == 1 && Ready(s.list)
    ensures (op.Unreserve? ==> op.n <= |s.list.idx|) && (op.PopClip? ==> s.list.clips != [])
    ensures op.PopTexture? ==> s.list.texs != []
    ensures Step(s, op).count == 1 && Ready(Step(s, op).list)
    ensures Step(s, op).list == if op.Switch? then s.list else StepList(s.list, op)
  {
    StepIsLogged(s, logs, op);
  }

  // --- Merging channels ----------------------------------------------------------------

  // Commands that differ in their offsets and counts only.
  predicate SameSettings(a: Cmd, b: Cmd) {
    a.clip == b.clip && a.tex == b.tex && a.callback == b.callback
  }

  lemma {:induction false} RebasedHasSettings(cs: seq<Cmd>, offset: int, i: int)
    requires 0 <= i < |cs|
    ensures SameSettings(Rebased(cs, offset)[i], cs[i])
    decreases |cs|
  {
    if i > 0 {
      RebasedHasSettings(cs[1..], offset + cs[0].elemCount, i - 1);
    }
  }

  lemma RebasedIsCompact(cs: seq<Cmd>, offset: int)
    requires Compact(cs)
    ensures Compact(Rebased(cs, offset)) && (cs != [] ==> SameSettings(Rebased(cs, offset)[0], cs[0]))
  {
    hide Rebased;
    forall i | 0 <= i < |cs| ensures SameSettings(Rebased(cs, offset)[i], cs[i]) {
      RebasedHasSettings(cs, offset, i);
    }
  }

  lemma CompactBoth(a: seq<Cmd>, b: seq<Cmd>)
    requires Compact(a) && Compact(b) && (a != [] && b != [] ==> !CanMerge(a[|a| - 1], b[0]))
    ensures Compact(a + b)
  {
  }

  lemma RestIsCompact(cs: seq<Cmd>)
    requires Compact(cs) && cs != []
    ensures Compact(cs[1..]) && (|cs| > 1 ==> !CanMerge(cs[0], cs[1]))
  {
  }

  lemma AppendIsCompact(acc: Channel, cs: seq<Cmd>, idx: seq<int>)
    requires Compact(acc.cmds) && Compact(cs)
    ensures Compact(Append(acc, cs, idx).cmds)
  {
    hide Compact, Rebased;
    if Joins(acc, cs) {
      var c := acc.cmds[|acc.cmds| - 1];
      var c' := c.(elemCount := c.elemCount + cs[0].elemCount);
      LastApart(acc.cmds);
      CompactMore(acc.cmds[..|acc.cmds| - 1], c');
      RestIsCompact(cs);
      RebasedIsCompact(cs[1..], |acc.idx| + cs[0].elemCount);
      CompactBoth(acc.cmds[..|acc.cmds| - 1] + [c'], Rebased(cs[1..], |acc.idx| + cs[0].elemCount));
    } else {
      RebasedIsCompact(cs, |acc.idx|);
      CompactBoth(acc.cmds, Rebased(cs, |acc.idx|));
    }
  }

  lemma {:induction false} FoldIsCompact(s: Split, n: int)
    requires 1 <= n <= s.count && 0 <= s.current < s.count && (s.count <= |s.channels| || s.count == 1)
    requires forall i :: 0 <= i < s.count ==> Compact(ChannelAt(s, i).cmds)
    ensures Compact(Fold(s, n).cmds)
    decreases n
  {
    var ch := ChannelAt(s, n - 1);
    assert Compact(ch.cmds);
    if ch.cmds != [] {
      FrontIsCompact(ch.cmds);
    }
    hide Compact, Append;
    if n > 1 {
      FoldIsCompact(s, n - 1);
      AppendIsCompact(Fold(s, n - 1), Trimmed(ch).cmds, Trimmed(ch).idx);
    }
  }

  predicate Stale(d: List) {
    d.cmds == [] || Last(d).callback.Some?
    || (Last(d).elemCount != 0 && (Last(d).clip != CurrentClip(d) || Last(d).tex != CurrentTexture(d)))
  }

  function Added(d: List): Cmd {
    Cmd(0, CurrentClip(d), CurrentTexture(d), |d.idx|, None)
  }

  // What both updates in a row come to: a new command, the list as it is, the list without its empty
  // last command, or that one under both current settings.
  lemma StaleGetsCommand(d: List)
    requires Stale(d)
    ensures UpdateTextureID(UpdateClipRect(d)).cmds == d.cmds + [Added(d)]
  {
    var d' := d.(cmds := d.cmds + [Added(d)]);
    assert d'.cmds[..|d.cmds|] == d.cmds;
    if d.cmds != [] && Last(d).callback.None? && Last(d).clip == CurrentClip(d) {
      assert UpdateClipRect(d).cmds == d.cmds;
    } else {
      assert UpdateClipRect(d) == d' && UpdateTextureID(d').cmds == d'.cmds;
    }
  }

  lemma UsedStays(d: List)
    requires !Stale(d) && Last(d).elemCount != 0
    ensures UpdateTextureID(UpdateClipRect(d)).cmds == d.cmds
  {
    assert UpdateClipRect(d).cmds == d.cmds;
  }

  lemma EmptyMergesBack(d: List)
    requires !Stale(d) && MergesBack(d) && !CanMergeBefore(d)
    ensures UpdateTextureID(UpdateClipRect(d)).cmds == d.cmds[..|d.cmds| - 1]
  {
    var d' := d.(cmds := d.cmds[..|d.cmds| - 1]);
    assert UpdateClipRect(d) == d' && d'.cmds == d'.cmds[..|d'.cmds| - 1] + [Last(d')];
  }

  // The two commands in front of the last one could be one.
  predicate CanMergeBefore(d: List) {
    |d.cmds| > 2 && CanMerge(d.cmds[|d.cmds| - 3], d.cmds[|d.cmds| - 2])
  }

  lemma EmptyIsRelabelled(d: List)
    requires !Stale(d) && Last(d).elemCount == 0 && !MergesBack(d)
    ensures UpdateTextureID(UpdateClipRect(d)).cmds
         == d.cmds[..|d.cmds| - 1] + [Last(d).(clip := CurrentClip(d), tex := CurrentTexture(d))]
  {
    var front, d1 := d.cmds[..|d.cmds| - 1], WithLast(d, Last(d).(clip := CurrentClip(d)));
    assert UpdateClipRect(d) == d1 && d1.cmds[..|d1.cmds| - 1] == front;
  }

  // So they leave any compact list compact, whatever its last command carries.
  lemma UpdatesKeepCompact(d: List)
    requires Compact(d.cmds)
    ensures Compact(UpdateTextureID(UpdateClipRect(d)).cmds)
  {
    if Stale(d) {
      StaleGetsCommand(d);
      hide Compact, UpdateClipRect, UpdateTextureID;
      CompactMore(d.cmds, Added(d));
    } else if Last(d).elemCount != 0 {
      UsedStays(d);
    } else if MergesBack(d) {
      EmptyMergesBack(d);
      FrontIsCompact(d.cmds);
    } else {
      EmptyIsRelabelled(d);
      LastApart(d.cmds);
      hide Compact, UpdateClipRect, UpdateTextureID;
      CompactMore(d.cmds[..|d.cmds| - 1], Last(d).(clip := CurrentClip(d), tex := CurrentTexture(d)));
    }
  }

  // Merging compact channels gives a compact list: commands of neighbouring channels that can be
  // one are one as well, across any number of channels that show nothing.
  lemma MergeIsCompact(s: Split)
    requires 1 <= s.count && 0 <= s.current < s.count && (s.count <= |s.channels| || s.count == 1)
    requires forall i :: 0 <= i < s.count ==> Compact(ChannelAt(s, i).cmds)
    ensures Compact(MergedList(s).cmds)
  {
    FoldIsCompact(s, s.count);
    assert Compact(ChannelAt(s, s.current).cmds);
    hide Compact, Fold, UpdateClipRect, UpdateTextureID;
    if s.count > 1 {
      var all := Fold(s, s.count);
      UpdatesKeepCompact(s.list.(cmds := all.cmds, idx := all.idx));
    }
  }

  // --- No empty draw calls ---------------------------------------------------------------

  predicate NotEmpty(c: Cmd) {
    c.elemCount > 0 || c.callback.Some?
  }

  // Only the last command may draw nothing.
  predicate Lean(cs: seq<Cmd>) {
    forall i :: 0 <= i < |cs| - 1 ==> NotEmpty(cs[i])
  }

  predicate AllDraw(cs: seq<Cmd>) {
    forall i :: 0 <= i < |cs| ==> NotEmpty(cs[i])
  }

  lemma LeanMore(front: seq<Cmd>, c: Cmd)
    requires AllDraw(front)
    ensures Lean(front + [c])
  {
  }

  lemma LeanApart(cs: seq<Cmd>)
    requires Lean(cs) && cs != []
    ensures cs == cs[..|cs| - 1] + [cs[|cs| - 1]] && AllDraw(cs[..|cs| - 1]) && Lean(cs[..|cs| - 1])
    ensures NotEmpty(cs[|cs| - 1]) ==> AllDraw(cs)
  {
  }

  // Any operation but an explicit new command keeps a list lean, ready or not.
  lemma StepKeepsLean(d: List, op: Op)
    requires Lean(d.cmds) && Wf(d) && d.cmds != [] && !op.NewCommand?
    requires (op.Unreserve? ==> op.n <= |d.idx|) && (op.PopClip? ==> d.clips != []) && (op.PopTexture? ==> d.texs != [])
    ensures Lean(StepList(d, op).cmds)
  {
    Apart(d);
    hide Lean, AllDraw, Partitions, UpdateClipRect, UpdateTextureID, AddCallback;
    LeanApart(d.cmds);
    match op
    case Reserve(slots) => LeanMore(d.cmds[..|d.cmds| - 1], Last(d).(elemCount := Last(d).elemCount + |slots|));
    case Unreserve(n) => LeanMore(d.cmds[..|d.cmds| - 1], Last(d).(elemCount := Last(d).elemCount - n));
    case Invoke(cb) => CallbackKeepsLean(d, cb);
    case PushClip(c) => ClipKeepsLean(d.(clips := d.clips + [c]));
    case PopClip => ClipKeepsLean(d.(clips := d.clips[..|d.clips| - 1]));
    case PushTexture(x) => TextureKeepsLean(d.(texs := d.texs + [x]));
    case PopTexture => TextureKeepsLean(d.(texs := d.texs[..|d.texs| - 1]));
    case Switch(_) =>
  }

  lemma ClipKeepsLean(d: List)
    requires Lean(d.cmds) && (d.cmds != [] ==> 0 <= Last(d).elemCount)
    ensures Lean(UpdateClipRect(d).cmds)
  {
    hide Lean, AllDraw;
    if d.cmds == [] {
      NoneIsLean(Added(d));
    } else {
      LeanApart(d.cmds);
      if NotEmpty(Last(d)) {
        LeanMore(d.cmds, Added(d));
      }
      LeanMore(d.cmds[..|d.cmds| - 1], Last(d).(clip := CurrentClip(d)));
    }
  }

  lemma TextureKeepsLean(d: List)
    requires Lean(d.cmds) && (d.cmds != [] ==> 0 <= Last(d).elemCount)
    ensures Lean(UpdateTextureID(d).cmds)
  {
    hide Lean, AllDraw;
    if d.cmds == [] {
      NoneIsLean(Added(d));
    } else {
      LeanApart(d.cmds);
      if NotEmpty(Last(d)) {
        LeanMore(d.cmds, Added(d));
      }
      LeanMore(d.cmds[..|d.cmds| - 1], Last(d).(tex := CurrentTexture(d)));
    }
  }

  lemma NoneIsLean(c: Cmd)
    ensures Lean([] + [c]) && Lean([c])
  {
  }

  lemma CallbackKeepsLean(d: List, cb: Callback)
    requires Lean(d.cmds) && d.cmds != [] && 0 <= Last(d).elemCount
    ensures Lean(AddCallback(d, cb).cmds)
  {
    hide Lean, AllDraw;
    LeanApart(d.cmds);
    var (front, c) := if NotEmpty(Last(d)) then (d.cmds, Added(d)) else (d.cmds[..|d.cmds| - 1], Last(d));
    assert (d.cmds + [Added(d)])[..|d.cmds|] == d.cmds;
    AllDrawMore(front, c.(callback := Some(cb)));
    LeanMore(front + [c.(callback := Some(cb))], Added(d));
  }

  lemma AllDrawMore(front: seq<Cmd>, c: Cmd)
    requires AllDraw(front) && NotEmpty(c)
    ensures AllDraw(front + [c])
  {
  }

  lemma TrimmedDraws(ch: Channel)
    requires Lean(ch.cmds) && (ch.cmds != [] ==> 0 <= ch.cmds[|ch.cmds| - 1].elemCount)
    ensures AllDraw(Trimmed(ch).cmds)
  {
  }

  lemma {:induction false} RebasedDraws(cs: seq<Cmd>, offset: int, i: int)
    requires 0 <= i < |cs|
    ensures NotEmpty(Rebased(cs, offset)[i]) <==> NotEmpty(cs[i])
    decreases |cs|
  {
    if i > 0 {
      RebasedDraws(cs[1..], offset + cs[0].elemCount, i - 1);
    }
  }

  lemma RebasedAllDraw(cs: seq<Cmd>, offset: int)
    requires AllDraw(cs)
    ensures AllDraw(Rebased(cs, offset))
  {
    hide Rebased;
    forall i | 0 <= i < |cs| ensures NotEmpty(Rebased(cs, offset)[i]) {
      RebasedDraws(cs, offset, i);
    }
  }

  lemma BothDraw(a: seq<Cmd>, b: seq<Cmd>)
    requires AllDraw(a) && AllDraw(b)
    ensures AllDraw(a + b) && (a != [] ==> AllDraw(a[..|a| - 1]) && NotEmpty(a[|a| - 1]))
    ensures b != [] ==> AllDraw(b[1..]) && NotEmpty(b[0])
  {
  }

  lemma AppendDraws(acc: Channel, cs: seq<Cmd>, idx: seq<int>)
    requires AllDraw(acc.cmds) && AllDraw(cs)
    ensures AllDraw(Append(acc, cs, idx).cmds)
  {
    BothDraw(acc.cmds, cs);
    hide AllDraw, Rebased;
    if Joins(acc, cs) {
      var c := acc.cmds[|acc.cmds| - 1];
      var c' := c.(elemCount := c.elemCount + cs[0].elemCount);
      AllDrawMore(acc.cmds[..|acc.cmds| - 1], c');
      RebasedAllDraw(cs[1..], |acc.idx| + cs[0].elemCount);
      BothDraw(acc.cmds[..|acc.cmds| - 1] + [c'], Rebased(cs[1..], |acc.idx| + cs[0].elemCount));
    } else {
      RebasedAllDraw(cs, |acc.idx|);
      BothDraw(acc.cmds, Rebased(cs, |acc.idx|));
    }
  }

  lemma {:induction false} FoldDraws(s: Split, n: int)
    requires SplitWf(s) && 1 <= n <= s.count && forall i :: 0 <= i < s.count ==> Lean(ChannelAt(s, i).cmds)
    ensures AllDraw(Fold(s, n).cmds)
    decreases n
  {
    assert Usable(ChannelAt(s, n - 1)) && Lean(ChannelAt(s, n - 1).cmds);
    LastIsCounted(ChannelAt(s, n - 1));
    TrimmedDraws(ChannelAt(s, n - 1));
    hide Lean, AllDraw, Append, Trimmed, SplitWf, Usable;
    if n > 1 {
      FoldDraws(s, n - 1);
      AppendDraws(Fold(s, n - 1), Trimmed(ChannelAt(s, n - 1)).cmds, Trimmed(ChannelAt(s, n - 1)).idx);
    }
  }

  lemma LastIsCounted(ch: Channel)
    requires Usable(ch)
    ensures 0 <= ch.cmds[|ch.cmds| - 1].elemCount
  {
  }

  // Merging lean channels leaves no empty command but the last one, however many channels were empty.
  lemma MergeIsLean(s: Split)
    requires SplitWf(s) && forall i :: 0 <= i < s.count ==> Lean(ChannelAt(s, i).cmds)
    ensures Lean(MergedList(s).cmds)
  {
    FoldDraws(s, s.count);
    assert Lean(ChannelAt(s, s.current).cmds);
    if s.count > 1 {
      UpdatesOfDrawn(s.list.(cmds := Fold(s, s.count).cmds, idx := Fold(s, s.count).idx));
    }
  }

  lemma UpdatesOfDrawn(d: List)
    requires AllDraw(d.cmds)
    ensures Lean(UpdateTextureID(UpdateClipRect(d)).cmds)
  {
    if Stale(d) {
      StaleGetsCommand(d);
      LeanMore(d.cmds, Added(d));
    } else {
      UsedStays(d);
    }
  }
}
