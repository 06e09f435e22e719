// Whole runs over a draw list, split or not, against an ideal painter that has only the two
// stacks and one log of events per channel.
module DrawRuns {
  import opened DrawCommands
  import opened DrawChannels

  datatype Op =
    | Reserve(slots: seq<int>)
    | Unreserve(n: nat)
    | NewCommand
    | Invoke(cb: Callback)
    | PushClip(clip: Clip)
    | PopClip
    | PushTexture(tex: Texture)
    | PopTexture
    | Switch(channel: int)

  // What each operation asks of its caller: nothing is popped that was not pushed, and no more
  // indices are released than the open command holds.
  predicate Legal(s: Split, op: Op) {
    match op
    case Unreserve(n) => s.list.cmds != [] && n <= Last(s.list).elemCount && n <= |s.list.idx|
    case PopClip => s.list.clips != []
    case PopTexture => s.list.texs != []
    case Switch(i) => 0 <= i < s.count
    case _ => s.list.cmds != []
  }

  function StepList(d: List, op: Op): List
    requires d.cmds != [] && (op.Unreserve? ==> op.n <= |d.idx|)
    requires (op.PopClip? ==> d.clips != []) && (op.PopTexture? ==> d.texs != [])
  {
    match op
    case Reserve(slots) => PrimReserve(d, slots)
    case Unreserve(n) => PrimUnreserve(d, n)
    case NewCommand => AddDrawCmd(d)
    case Invoke(cb) => AddCallback(d, cb)
    case PushClip(c) => PushClipRect(d, c)
    case PopClip => PopClipRect(d)
    case PushTexture(x) => PushTextureID(d, x)
    case PopTexture => PopTextureID(d)
    case Switch(_) => d
  }

  ghost function Step(s: Split, op: Op): Split
    requires SplitWf(s) && Legal(s, op)
  {
    assert Usable(ChannelAt(s, s.current));
    if op.Switch? then SetCurrentChannel(s, op.channel) else s.(list := StepList(s.list, op))
  }

  // What an operation adds to the log of the channel it runs on, under a clip rectangle and a
  // texture.
  function Record(log: seq<Event>, clip: Clip, tex: Texture, op: Op): seq<Event> {
    match op
    case Reserve(slots) => log + Draws(slots, clip, tex)
    case Unreserve(n) => if n <= |log| then log[..|log| - n] else []
    case Invoke(cb) => log + [Call(cb)]
    case _ => log
  }

  lemma UnreserveShows(d: List, n: nat)
    requires Wf(d) && Open(d) && n <= Last(d).elemCount
    ensures n <= |d.idx| && Wf(PrimUnreserve(d, n)) && Open(PrimUnreserve(d, n))
    ensures n <= |Shown(d)| && Shown(PrimUnreserve(d, n)) == Shown(d)[..|Shown(d)| - n]
    ensures Ready(d) ==> Ready(PrimUnreserve(d, n))
  {
    hide Shown, Render, Draws, Partitions;
    Apart(d);
    var d', tail := PrimUnreserve(d, n), d.idx[|d.idx| - n..];
    var c := Last(d');
    PartitionsMore(d.cmds[..|d.cmds| - 1], c.idxOffset, c);
    PrimReserveShows(d', tail);
    assert d'.idx + tail == d.idx;
    assert PrimReserve(d', tail) == d;
  }

  // One operation on the list itself: it changes what is shown by its own record, made under the
  // clip rectangle and texture of the open command, and a ready list stays ready.
  lemma StepListShows(d: List, op: Op)
    requires Wf(d) && Open(d) && (op.Unreserve? ==> op.n <= Last(d).elemCount && op.n <= |d.idx|)
    requires (op.PopClip? ==> d.clips != []) && (op.PopTexture? ==> d.texs != [])
    ensures var d' := StepList(d, op);
            && Wf(d') && Open(d') && (Ready(d) ==> Ready(d'))
            && Shown(d') == Record(Shown(d), Last(d).clip, Last(d).tex, op)
  {
    hide Wf, Shown, Draws, UpdateClipRect, UpdateTextureID, AddCallback, PrimReserve, PrimUnreserve;
    match op
    case Reserve(slots) =>
      PrimReserveShows(d, slots);
      PrimReserveKeepsReady(d, slots);
    case Unreserve(n) => UnreserveShows(d, n);
    case NewCommand => AddDrawCmdKeeps(d);
    case Invoke(cb) => AddCallbackShows(d, cb);
    case PushClip(c) => RestackedClips(d, d.clips + [c]);
    case PopClip => RestackedClips(d, d.clips[..|d.clips| - 1]);
    case PushTexture(x) => RestackedTextures(d, d.texs + [x]);
    case PopTexture => RestackedTextures(d, d.texs[..|d.texs| - 1]);
    case Switch(_) =>
  }

  lemma RestackedClips(d: List, clips: seq<Clip>)
    requires Wf(d) && Open(d)
    ensures var d' := UpdateClipRect(d.(clips := clips));
            Wf(d') && Open(d') && (Ready(d) ==> Ready(d')) && Shown(d') == Shown(d)
  {
    hide UpdateClipRect, Render, Partitions;
    UpdateClipRectKeeps(d.(clips := clips));
    UpdateMakesReady(d.(clips := clips));
  }

  lemma RestackedTextures(d: List, texs: seq<Texture>)
    requires Wf(d) && Open(d)
    ensures var d' := UpdateTextureID(d.(texs := texs));
            Wf(d') && Open(d') && (Ready(d) ==> Ready(d')) && Shown(d') == Shown(d)
  {
    hide UpdateTextureID, Render, Partitions;
    UpdateTextureIDKeeps(d.(texs := texs));
    UpdateMakesReady(d.(texs := texs));
  }

  // --- Runs, channel by channel ----------------------------------------------------

  // Each channel shows its log.
  ghost predicate Logged(s: Split, logs: seq<seq<Event>>) {
    && SplitWf(s) && |logs| == s.count
    && forall i :: 0 <= i < s.count ==> Usable(ChannelAt(s, i)) && Shows(ChannelAt(s, i)) == logs[i]
  }

  ghost function RecordAt(s: Split, logs: seq<seq<Event>>, op: Op): seq<seq<Event>>
    requires Logged(s, logs)
  {
    assert Usable(ChannelAt(s, s.current));
    logs[s.current := Record(logs[s.current], Last(s.list).clip, Last(s.list).tex, op)]
  }

  lemma StepIsLogged(s: Split, logs: seq<seq<Event>>, op: Op)
    requires Logged(s, logs) && Legal(s, op)
    ensures Logged(Step(s, op), RecordAt(s, logs, op))
    ensures Ready(s.list) && !op.Switch? ==> Ready(Step(s, op).list)
  {
    hide Sound, Shows, StepList, Render, Partitions;
    var s', logs' := Step(s, op), RecordAt(s, logs, op);
    assert Usable(ChannelAt(s, s.current));
    ListShows(s.list);
    if op.Switch? {
      SwitchKeeps(s, op.channel);
      assert logs' == logs;
    } else {
      StepListShows(s.list, op);
      SoundList(s'.list);
      ListShows(s'.list);
      forall i | 0 <= i < s'.count ensures Usable(ChannelAt(s', i)) && Shows(ChannelAt(s', i)) == logs'[i] {
        if i != s.current {
          assert ChannelAt(s', i) == ChannelAt(s, i);
        }
      }
    }
  }

  lemma SoundList(d: List)
    requires Wf(d)
    ensures Sound(Channel(d.cmds, d.idx))
  {
  }

  ghost predicate LegalRun(s: Split, logs: seq<seq<Event>>, ops: seq<Op>)
    requires Logged(s, logs)
    decreases |ops|
  {
    ops == []
    || (Legal(s, ops[0])
        && (StepIsLogged(s, logs, ops[0]); LegalRun(Step(s, ops[0]), RecordAt(s, logs, ops[0]), ops[1..])))
  }

  ghost function Run(s: Split, logs: seq<seq<Event>>, ops: seq<Op>): (r: (Split, seq<seq<Event>>))
    requires Logged(s, logs) && LegalRun(s, logs, ops)
    ensures Logged(r.0, r.1) && r.0.count == s.count
    decreases |ops|
  {
    if ops == [] then (s, logs)
    else
      StepIsLogged(s, logs, ops[0]);
      Run(Step(s, ops[0]), RecordAt(s, logs, ops[0]), ops[1..])
  }

  function Concat(logs: seq<seq<Event>>, n: int): seq<Event>
    requires 0 <= n <= |logs|
    decreases n
  {
    if n == 0 then [] else Concat(logs, n - 1) + logs[n - 1]
  }

  lemma {:induction false} FlattenIsConcat(s: Split, logs: seq<seq<Event>>, n: int)
    requires Logged(s, logs) && 0 <= n <= s.count
    ensures Flatten(s, n) == Concat(logs, n)
    decreases n
  {
    hide Shows;
    if n > 0 {
      FlattenIsConcat(s, logs, n - 1);
      assert Usable(ChannelAt(s, n - 1));
    }
  }

  // After any run that hops between channels in any order, merging shows channel 0's log, then
  // channel 1's, and so on.
  lemma MergeAfterAnyRun(s: Split, logs: seq<seq<Event>>, ops: seq<Op>)
    requires Logged(s, logs)
    ensures LegalRun(s, logs, ops) ==>
              var (s', logs') := Run(s, logs, ops);
              Wf(MergedList(s')) && Shown(MergedList(s')) == Concat(logs', |logs'|)
  {
    if LegalRun(s, logs, ops) {
      var (s', logs') := Run(s, logs, ops);
      MergeShows(s');
      FlattenIsConcat(s', logs', s'.count);
    }
  }

  // --- Against the ideal painter ---------------------------------------------------

  datatype Painter = Painter(logs: seq<seq<Event>>, current: int, clips: seq<Clip>, texs: seq<Texture>,
                             fullscreen: Clip)

  function TopClip(p: Painter): Clip {
    if p.clips == [] then p.fullscreen else p.clips[|p.clips| - 1]
  }

  function TopTexture(p: Painter): Texture {
    if p.texs == [] then NO_TEXTURE else p.texs[|p.texs| - 1]
  }

  // No commands, no merging: every index is painted under the tops of the stacks.
  function Paint(p: Painter, op: Op): (r: Painter)
    requires 0 <= p.current < |p.logs|
    ensures 0 <= r.current < |r.logs| == |p.logs|
  {
    match op
    case PushClip(c) => p.(clips := p.clips + [c])
    case PopClip => if p.clips == [] then p else p.(clips := p.clips[..|p.clips| - 1])
    case PushTexture(x) => p.(texs := p.texs + [x])
    case PopTexture => if p.texs == [] then p else p.(texs := p.texs[..|p.texs| - 1])
    case Switch(i) => if 0 <= i < |p.logs| then p.(current := i) else p
    case _ => p.(logs := p.logs[p.current := Record(p.logs[p.current], TopClip(p), TopTexture(p), op)])
  }

  function PaintAll(p: Painter, ops: seq<Op>): Painter
    requires 0 <= p.current < |p.logs|
    decreases |ops|
  {
    if ops == [] then p else PaintAll(Paint(p, ops[0]), ops[1..])
  }

  ghost predicate SameStacks(s: Split, p: Painter) {
    s.list.clips == p.clips && s.list.texs == p.texs && s.list.fullscreen == p.fullscreen && s.current == p.current
  }

  // The open command carries the tops of the stacks; indices are reserved only while it does.
  predicate CarriesTops(d: List)
    requires d.cmds != []
  {
    Last(d).clip == CurrentClip(d) && Last(d).tex == CurrentTexture(d)
  }

  predicate InTime(d: List, op: Op)
    requires d.cmds != []
  {
    op.Reserve? && op.slots != [] ==> CarriesTops(d)
  }

  ghost predicate Timely(s: Split, logs: seq<seq<Event>>, ops: seq<Op>)
    requires Logged(s, logs) && LegalRun(s, logs, ops)
    decreases |ops|
  {
    ops == [] ||
    (StepIsLogged(s, logs, ops[0]); assert Usable(ChannelAt(s, s.current));
     InTime(s.list, ops[0]) && Timely(Step(s, ops[0]), RecordAt(s, logs, ops[0]), ops[1..]))
  }

  predicate Restacks(op: Op) {
    op.Switch? || op.PushClip? || op.PopClip? || op.PushTexture? || op.PopTexture?
  }

  lemma NothingRecorded(log: seq<Event>, op: Op, clip: Clip, tex: Texture)
    requires Restacks(op)
    ensures Record(log, clip, tex, op) == log
  {
  }

  lemma ListStacks(d: List, op: Op)
    requires d.cmds != [] && (op.Unreserve? ==> op.n <= |d.idx|)
    requires (op.PopClip? ==> d.clips != []) && (op.PopTexture? ==> d.texs != [])
    ensures var d' := StepList(d, op);
            && d'.fullscreen == d.fullscreen
            && d'.clips == (if op.PushClip? then d.clips + [op.clip]
                            else if op.PopClip? then d.clips[..|d.clips| - 1] else d.clips)
            && d'.texs == (if op.PushTexture? then d.texs + [op.tex]
                           else if op.PopTexture? then d.texs[..|d.texs| - 1] else d.texs)
  {
  }

  lemma CurrentIsOpen(s: Split, logs: seq<seq<Event>>)
    requires Logged(s, logs)
    ensures s.list.cmds != [] && 0 <= s.current < |logs| == s.count
    ensures s.current < |s.channels| || s.count == 1
  {
    assert Usable(ChannelAt(s, s.current));
  }

  lemma StepKeepsStacks(s: Split, logs: seq<seq<Event>>, op: Op, p: Painter)
    requires Logged(s, logs) && Legal(s, op) && SameStacks(s, p) && |p.logs| == |logs|
    ensures 0 <= p.current < |p.logs| && SameStacks(Step(s, op), Paint(p, op))
  {
    CurrentIsOpen(s, logs);
    hide Logged, StepList, Record;
    if !op.Switch? {
      ListStacks(s.list, op);
    }
  }

  // What one step records and what the painter paints on the current channel.
  lemma StepRecords(s: Split, logs: seq<seq<Event>>, op: Op, p: Painter)
    requires Logged(s, logs) && Legal(s, op) && SameStacks(s, p) && |p.logs| == |logs|
    ensures s.list.cmds != [] && 0 <= s.current < |logs| && p.current == s.current
    ensures RecordAt(s, logs, op)
         == logs[s.current := Record(logs[s.current], Last(s.list).clip, Last(s.list).tex, op)]
    ensures Paint(p, op).logs
         == p.logs[s.current := Record(p.logs[s.current], CurrentClip(s.list), CurrentTexture(s.list), op)]
  {
    CurrentIsOpen(s, logs);
    hide Logged, Record, SplitWf, Paint;
    PaintRecords(p, op);
  }

  lemma PaintRecords(p: Painter, op: Op)
    requires 0 <= p.current < |p.logs|
    ensures Paint(p, op).logs == p.logs[p.current := Record(p.logs[p.current], TopClip(p), TopTexture(p), op)]
  {
    if Restacks(op) {
      NothingRecorded(p.logs[p.current], op, TopClip(p), TopTexture(p));
      assert p.logs[p.current := p.logs[p.current]] == p.logs;
    }
  }

  // --- Exactly when they agree -------------------------------------------------------

  // For every event in the log of the channel in use, whether it was recorded while the open command
  // carried the tops of the stacks. Marks are released along with the indices they are about.
  function Mark(marks: seq<bool>, d: List, op: Op): seq<bool>
    requires d.cmds != []
  {
    match op
    case Reserve(slots) => marks + seq(|slots|, i => CarriesTops(d))
    case Unreserve(n) => if n <= |marks| then marks[..|marks| - n] else []
    case Invoke(_) => marks + [true]
    case _ => marks
  }

  ghost function Marks(s: Split, logs: seq<seq<Event>>, ops: seq<Op>, marks: seq<seq<bool>>): (r: seq<seq<bool>>)
    requires Logged(s, logs) && LegalRun(s, logs, ops) && |marks| == |logs|
    ensures |r| == |marks|
    decreases |ops|
  {
    if ops == [] then marks
    else
      StepIsLogged(s, logs, ops[0]);
      CurrentIsOpen(s, logs);
      Marks(Step(s, ops[0]), RecordAt(s, logs, ops[0]), ops[1..],
            marks[s.current := Mark(marks[s.current], s.list, ops[0])])
  }

  // Two logs have the same length, and the same events just where the marks say so.
  predicate Tell(marks: seq<bool>, log: seq<Event>, log': seq<Event>) {
    |marks| == |log| == |log'| && forall k :: 0 <= k < |marks| ==> (marks[k] <==> log[k] == log'[k])
  }

  predicate TellAll(marks: seq<seq<bool>>, logs: seq<seq<Event>>, logs': seq<seq<Event>>) {
    |marks| == |logs| == |logs'| && forall i :: 0 <= i < |marks| ==> Tell(marks[i], logs[i], logs'[i])
  }

  lemma MarkTells(marks: seq<bool>, log: seq<Event>, log': seq<Event>, d: List, op: Op)
    requires Tell(marks, log, log') && d.cmds != []
    ensures Tell(Mark(marks, d, op), Record(log, Last(d).clip, Last(d).tex, op),
                 Record(log', CurrentClip(d), CurrentTexture(d), op))
  {
    hide CurrentClip, CurrentTexture;
  }

  // Over any run the marks say where the logs are what the painter paints.
  lemma {:induction false} MarksTell(s: Split, logs: seq<seq<Event>>, ops: seq<Op>, p: Painter, marks: seq<seq<bool>>)
    requires Logged(s, logs) && LegalRun(s, logs, ops) && SameStacks(s, p) && TellAll(marks, logs, p.logs)
    ensures 0 <= p.current < |p.logs|
    ensures TellAll(Marks(s, logs, ops, marks), Run(s, logs, ops).1, PaintAll(p, ops).logs)
    decreases |ops|
  {
    CurrentIsOpen(s, logs);
    assert p.current == s.current;
    if ops != [] {
      StepIsLogged(s, logs, ops[0]);
      StepKeepsStacks(s, logs, ops[0], p);
      StepRecords(s, logs, ops[0], p);
      MarkTells(marks[s.current], logs[s.current], p.logs[s.current], s.list, ops[0]);
      hide Logged, Step, RecordAt, Paint, Legal, SameStacks, Mark, Record, Tell;
      MarksTell(Step(s, ops[0]), RecordAt(s, logs, ops[0]), ops[1..], Paint(p, ops[0]),
                marks[s.current := Mark(marks[s.current], s.list, ops[0])]);
    }
  }

  function AllMarked(logs: seq<seq<Event>>): (marks: seq<seq<bool>>)
    ensures |marks| == |logs|
  {
    seq(|logs|, i requires 0 <= i < |logs| => seq(|logs[i]|, k => true))
  }

  predicate NoneUnmarked(marks: seq<seq<bool>>) {
    forall i, k :: 0 <= i < |marks| && 0 <= k < |marks[i]| ==> marks[i][k]
  }

  // Every index that is not released again is reserved in time.
  ghost predicate SurvivorsInTime(s: Split, logs: seq<seq<Event>>, ops: seq<Op>)
    requires Logged(s, logs) && LegalRun(s, logs, ops)
  {
    NoneUnmarked(Marks(s, logs, ops, AllMarked(logs)))
  }

  lemma MarkedAreSame(marks: seq<seq<bool>>, logs: seq<seq<Event>>, logs': seq<seq<Event>>)
    requires TellAll(marks, logs, logs')
    ensures logs == logs' <==> NoneUnmarked(marks)
  {
    if NoneUnmarked(marks) {
      forall i | 0 <= i < |logs| ensures logs[i] == logs'[i] {
        assert Tell(marks[i], logs[i], logs'[i]);
      }
    } else {
      var i, k :| 0 <= i < |marks| && 0 <= k < |marks[i]| && !marks[i][k];
      assert Tell(marks[i], logs[i], logs'[i]);
    }
  }

  // Over any run the logs are what the painter paints if and only if every index that is not released
  // again is reserved while the open command carries the tops of the stacks, whatever is pushed,
  // popped and switched in between.
  lemma PaintsIffSurvivorsInTime(s: Split, logs: seq<seq<Event>>, ops: seq<Op>, p: Painter)
    requires Logged(s, logs) && LegalRun(s, logs, ops) && SameStacks(s, p) && p.logs == logs
    ensures 0 <= p.current < |p.logs|
    ensures TellAll(Marks(s, logs, ops, AllMarked(logs)), Run(s, logs, ops).1, PaintAll(p, ops).logs)
    ensures Run(s, logs, ops).1 == PaintAll(p, ops).logs <==> SurvivorsInTime(s, logs, ops)
  {
    assert TellAll(AllMarked(logs), logs, p.logs);
    MarksTell(s, logs, ops, p, AllMarked(logs));
    CurrentIsOpen(s, logs);
    hide Logged, LegalRun, SameStacks, AllMarked, TellAll, NoneUnmarked;
    MarkedAreSame(Marks(s, logs, ops, AllMarked(logs)), Run(s, logs, ops).1, PaintAll(p, ops).logs);
  }

  predicate NothingReleased(ops: seq<Op>) {
    forall k :: 0 <= k < |ops| ==> !ops[k].Unreserve?
  }

  lemma {:induction false} TimelyMarks(s: Split, logs: seq<seq<Event>>, ops: seq<Op>, marks: seq<seq<bool>>)
    requires Logged(s, logs) && LegalRun(s, logs, ops) && |marks| == |logs|
    requires Timely(s, logs, ops) && NoneUnmarked(marks)
    ensures NoneUnmarked(Marks(s, logs, ops, marks))
    decreases |ops|
  {
    CurrentIsOpen(s, logs);
    if ops != [] {
      StepIsLogged(s, logs, ops[0]);
      var marks' := marks[s.current := Mark(marks[s.current], s.list, ops[0])];
      assert NoneUnmarked(marks');
      hide Logged, Step, RecordAt, Legal, Mark, NoneUnmarked, InTime;
      TimelyMarks(Step(s, ops[0]), RecordAt(s, logs, ops[0]), ops[1..], marks');
    }
  }

  // Where nothing is released, an index reserved at the wrong time stays.
  lemma {:induction false} UnmarkedStays(s: Split, logs: seq<seq<Event>>, ops: seq<Op>, marks: seq<seq<bool>>,
                                         i: int, k: int)
    requires Logged(s, logs) && LegalRun(s, logs, ops) && NothingReleased(ops) && |marks| == |logs|
    requires 0 <= i < |marks| && 0 <= k < |marks[i]| && !marks[i][k]
    ensures !NoneUnmarked(Marks(s, logs, ops, marks))
    decreases |ops|
  {
    CurrentIsOpen(s, logs);
    if ops != [] {
      StepIsLogged(s, logs, ops[0]);
      var marks' := marks[s.current := Mark(marks[s.current], s.list, ops[0])];
      assert k < |marks'[i]| && !marks'[i][k];
      hide Logged, Step, RecordAt, Legal, Mark, NoneUnmarked;
      UnmarkedStays(Step(s, ops[0]), RecordAt(s, logs, ops[0]), ops[1..], marks', i, k);
    }
  }

  lemma {:induction false} MarksAreTimely(s: Split, logs: seq<seq<Event>>, ops: seq<Op>, marks: seq<seq<bool>>)
    requires Logged(s, logs) && LegalRun(s, logs, ops) && NothingReleased(ops) && |marks| == |logs|
    requires NoneUnmarked(Marks(s, logs, ops, marks))
    ensures Timely(s, logs, ops)
    decreases |ops|
  {
    CurrentIsOpen(s, logs);
    if ops != [] {
      StepIsLogged(s, logs, ops[0]);
      var old', marks' := |marks[s.current]|, marks[s.current := Mark(marks[s.current], s.list, ops[0])];
      if !InTime(s.list, ops[0]) {
        assert old' < |marks'[s.current]| && !marks'[s.current][old'];
        UnmarkedStays(Step(s, ops[0]), RecordAt(s, logs, ops[0]), ops[1..], marks', s.current, old');
      }
      hide Logged, Step, RecordAt, Legal, Mark, NoneUnmarked, InTime;
      MarksAreTimely(Step(s, ops[0]), RecordAt(s, logs, ops[0]), ops[1..], marks');
    }
  }

  // So it is enough that every reservation is timely; where nothing is released, it is necessary too.
  lemma TimelyOrReleased(s: Split, logs: seq<seq<Event>>, ops: seq<Op>)
    requires Logged(s, logs) && LegalRun(s, logs, ops)
    ensures Timely(s, logs, ops) ==> SurvivorsInTime(s, logs, ops)
    ensures NothingReleased(ops) ==> (SurvivorsInTime(s, logs, ops) <==> Timely(s, logs, ops))
  {
    assert NoneUnmarked(AllMarked(logs));
    hide Logged, LegalRun, AllMarked, NoneUnmarked, Timely;
    if Timely(s, logs, ops) {
      TimelyMarks(s, logs, ops, AllMarked(logs));
    }
    if NothingReleased(ops) && SurvivorsInTime(s, logs, ops) {
      MarksAreTimely(s, logs, ops, AllMarked(logs));
    }
  }

  // --- On one channel --------------------------------------------------------------

  function PainterOf(d: List, logs: seq<seq<Event>>): Painter {
    Painter(logs, 0, d.clips, d.texs, d.fullscreen)
  }

  // Drawing without channels: whatever is pushed, popped, merged and dropped along the way, the
  // list stays in order, and every index reserved at any time is still shown under the clip
  // rectangle and texture that were on top when it was reserved.
  lemma UnsplitRunPaints(d: List, ops: seq<Op>)
    requires Wf(d) && Ready(d)
    ensures var s := Split(d, 0, 1, []);
            && Logged(s, [Shown(d)])
            && (LegalRun(s, [Shown(d)], ops) ==>
                  var d' := Run(s, [Shown(d)], ops).0.list;
                  Wf(d') && Ready(d') && [Shown(d')] == PaintAll(PainterOf(d, [Shown(d)]), ops).logs)
  {
    var s, logs := Split(d, 0, 1, []), [Shown(d)];
    StartIsLogged(d);
    if LegalRun(s, logs, ops) {
      UnsplitIsTimely(s, logs, ops);
      TimelyOrReleased(s, logs, ops);
      PaintsIffSurvivorsInTime(s, logs, ops, PainterOf(d, logs));
      var (s', logs') := Run(s, logs, ops);
      assert ChannelAt(s', 0) == Channel(s'.list.cmds, s'.list.idx);
      assert Usable(ChannelAt(s', 0));
      ListShows(s'.list);
      assert logs' == [Shown(s'.list)];
    }
  }

  lemma StartIsLogged(d: List)
    requires Wf(d) && Open(d)
    ensures Logged(Split(d, 0, 1, []), [Shown(d)])
  {
    SoundList(d);
    ListShows(d);
  }

  lemma {:induction false} UnsplitIsTimely(s: Split, logs: seq<seq<Event>>, ops: seq<Op>)
    requires Logged(s, logs) && LegalRun(s, logs, ops) && s.count == 1 && Ready(s.list)
    ensures Timely(s, logs, ops) && Ready(Run(s, logs, ops).0.list)
    decreases |ops|
  {
    if ops != [] {
      StepIsLogged(s, logs, ops[0]);
      UnsplitIsTimely(Step(s, ops[0]), RecordAt(s, logs, ops[0]), ops[1..]);
    }
  }

  // --- Split, draw, merge ------------------------------------------------------------

  // What every channel shows right after a split.
  function StartLogs(d: List, n: int): (logs: seq<seq<Event>>)
    requires Wf(d) && 1 <= n
    ensures |logs| == n
  {
    [Shown(d)] + seq(n - 1, i => [])
  }

  lemma SplitIsLogged(d: List, chs: seq<Channel>, n: int)
    requires Wf(d) && Ready(d) && d.clips != [] && d.texs != [] && 1 <= n
    ensures var s := SplitInto(Split(d, 0, 1, chs), n);
            Logged(s, StartLogs(d, n)) && s.count == n && SameStacks(s, PainterOf(d, StartLogs(d, n)))
  {
    hide Sound, Shows, Render, Partitions;
    var s := Split(d, 0, 1, chs);
    SoundList(d);
    assert ChannelAt(s, 0) == Channel(d.cmds, d.idx);
    SplitKeeps(s, n);
  }

  // Merging after a run shows the given channels one after the other, in commands that partition one
  // index buffer.
  ghost predicate MergesTo(s: Split, logs: seq<seq<Event>>, ops: seq<Op>, painted: seq<seq<Event>>)
    requires Logged(s, logs) && LegalRun(s, logs, ops)
  {
    var merged := MergedList(Run(s, logs, ops).0);
    Wf(merged) && Shown(merged) == Concat(painted, |painted|)
  }

  predicate AsLong(logs: seq<seq<Event>>, logs': seq<seq<Event>>) {
    |logs| == |logs'| && forall i :: 0 <= i < |logs| ==> |logs[i]| == |logs'[i]|
  }

  lemma {:induction false} ConcatTellsApart(a: seq<seq<Event>>, b: seq<seq<Event>>, n: int)
    requires AsLong(a, b) && 0 <= n <= |a| && Concat(a, n) == Concat(b, n)
    ensures forall i :: 0 <= i < n ==> a[i] == b[i]
    decreases n
  {
    if n > 0 {
      ConcatLength(a, b, n - 1);
      var k := |Concat(a, n - 1)|;
      assert Concat(a, n)[..k] == Concat(a, n - 1) && Concat(b, n)[..k] == Concat(b, n - 1);
      assert Concat(a, n)[k..] == a[n - 1] && Concat(b, n)[k..] == b[n - 1];
      ConcatTellsApart(a, b, n - 1);
    }
  }

  lemma {:induction false} ConcatLength(a: seq<seq<Event>>, b: seq<seq<Event>>, n: int)
    requires AsLong(a, b) && 0 <= n <= |a|
    ensures |Concat(a, n)| == |Concat(b, n)|
    decreases n
  {
    if n > 0 {
      ConcatLength(a, b, n - 1);
    }
  }

  lemma ConcatIff(marks: seq<seq<bool>>, a: seq<seq<Event>>, b: seq<seq<Event>>)
    requires TellAll(marks, a, b)
    ensures Concat(a, |a|) == Concat(b, |b|) <==> a == b
  {
    assert AsLong(a, b) by {
      forall i | 0 <= i < |a| ensures |a[i]| == |b[i]| {
        assert Tell(marks[i], a[i], b[i]);
      }
    }
    hide Concat, TellAll;
    if Concat(a, |a|) == Concat(b, |b|) {
      ConcatTellsApart(a, b, |a|);
      assert a == b;
    }
  }

  // Merging after a run shows what the painter painted on channel 0, then on channel 1, and so on, if
  // and only if every index that was not released again was reserved in time.
  lemma MergedRunPaints(s: Split, logs: seq<seq<Event>>, ops: seq<Op>, p: Painter)
    requires Logged(s, logs) && LegalRun(s, logs, ops) && SameStacks(s, p) && p.logs == logs
    ensures 0 <= p.current < |p.logs|
    ensures MergesTo(s, logs, ops, PaintAll(p, ops).logs) <==> SurvivorsInTime(s, logs, ops)
  {
    CurrentIsOpen(s, logs);
    MergeAfterAnyRun(s, logs, ops);
    PaintsIffSurvivorsInTime(s, logs, ops, p);
    hide Logged, LegalRun, Run, MergedList, Shown, Wf, Concat, SameStacks, PaintAll, SurvivorsInTime, TellAll, Marks;
    ConcatIff(Marks(s, logs, ops, AllMarked(logs)), Run(s, logs, ops).1, PaintAll(p, ops).logs);
  }

  // The whole of it: split a list that is ready, draw on the channels in any order, merge. What the
  // list showed before comes first, as part of channel 0.
  lemma SplitDrawMerge(d: List, chs: seq<Channel>, n: int, ops: seq<Op>)
    requires Wf(d) && Ready(d) && d.clips != [] && d.texs != [] && 1 <= n
    ensures var (s, logs) := (SplitInto(Split(d, 0, 1, chs), n), StartLogs(d, n));
            && Logged(s, logs)
            && (LegalRun(s, logs, ops) ==>
                  && (MergesTo(s, logs, ops, PaintAll(PainterOf(d, logs), ops).logs) <==> SurvivorsInTime(s, logs, ops))
                  && (Timely(s, logs, ops) ==> SurvivorsInTime(s, logs, ops)))
  {
    hide Logged, LegalRun, MergesTo, Timely, SurvivorsInTime, PaintAll, SplitInto, StartLogs, SameStacks, Wf, Ready;
    SplitIsLogged(d, chs, n);
    var s, logs := SplitInto(Split(d, 0, 1, chs), n), StartLogs(d, n);
    if LegalRun(s, logs, ops) {
      MergedRunPaints(s, logs, ops, PainterOf(d, logs));
      TimelyOrReleased(s, logs, ops);
    }
  }

  // Columns switch first and push or pop the clip rectangle afterwards. That is in time as long as
  // the channel was left under the texture now on top.
  lemma SwitchThenClipIsReady(s: Split, logs: seq<seq<Event>>, i: int, op: Op)
    requires Logged(s, logs) && Legal(s, Switch(i)) && (op.PushClip? || (op.PopClip? && s.list.clips != []))
    ensures var s' := Step(s, Switch(i));
            && Logged(s', logs) && Legal(s', op) && s'.list.cmds != []
            && (Last(s'.list).tex == CurrentTexture(s'.list) ==> Ready(Step(s', op).list))
  {
    hide *;
    SwitchLands(s, logs, i);
    var s' := Step(s, Switch(i));
    ClipIsReady(s', op);
  }

  lemma SwitchLands(s: Split, logs: seq<seq<Event>>, i: int)
    requires Logged(s, logs) && Legal(s, Switch(i))
    ensures SplitWf(s)
    ensures var s' := Step(s, Switch(i));
            Logged(s', logs) && SplitWf(s') && s'.list.clips == s.list.clips && s'.list.cmds != [] && Open(s'.list)
  {
    CurrentIsOpen(s, logs);
    assert logs[s.current := logs[s.current]] == logs;
    StepIsLogged(s, logs, Switch(i));
    SwitchKeepsStacks(s, i);
    hide Logged, SetCurrentChannel, Usable, SplitWf;
    CurrentIsOpen(Step(s, Switch(i)), logs);
    OpenAfter(Step(s, Switch(i)), logs);
  }

  lemma ClipIsReady(s: Split, op: Op)
    requires SplitWf(s) && s.list.cmds != [] && Open(s.list) && (op.PushClip? || (op.PopClip? && s.list.clips != []))
    ensures Legal(s, op) && (Last(s.list).tex == CurrentTexture(s.list) ==> Ready(Step(s, op).list))
  {
    hide UpdateClipRect, SplitWf, Usable;
    var d := s.list;
    UpdateMakesReady(d.(clips := if op.PushClip? then d.clips + [op.clip] else d.clips[..|d.clips| - 1]));
  }

  lemma SwitchKeepsStacks(s: Split, i: int)
    requires SplitWf(s) && 0 <= i < s.count
    ensures var d := SetCurrentChannel(s, i).list;
            d.clips == s.list.clips && d.texs == s.list.texs && d.fullscreen == s.list.fullscreen
  {
  }

  lemma OpenAfter(s: Split, logs: seq<seq<Event>>)
    requires Logged(s, logs)
    ensures Open(s.list)
  {
    assert Usable(ChannelAt(s, s.current));
  }
}
