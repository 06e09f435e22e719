// Splitting a draw list into channels and merging them again: the merged list shows the
// channels one after the other, whatever order they were drawn in.
module DrawChannels {
  import opened Common
  import opened DrawCommands

  datatype Channel = Channel(cmds: seq<Cmd>, idx: seq<int>)

  // The draw list together with its splitter. The list's own buffers are those of the current
  // channel; what channels[current] holds does not matter meanwhile.
  datatype Split = Split(list: List, current: int, count: int, channels: seq<Channel>)

  ghost predicate Sound(ch: Channel) {
    Partitions(ch.cmds, |ch.idx|)
  }

  // A channel that indices can be added to.
  ghost predicate Usable(ch: Channel) {
    Sound(ch) && ch.cmds != [] && ch.cmds[|ch.cmds| - 1].callback.None?
  }

  ghost function Shows(ch: Channel): seq<Event>
    requires Sound(ch)
  {
    Render(ch.cmds, ch.idx)
  }

  function ChannelAt(s: Split, i: int): Channel
    requires 0 <= i < s.count && (i == s.current || i < |s.channels|)
  {
    if i == s.current then Channel(s.list.cmds, s.list.idx) else s.channels[i]
  }

  ghost predicate SplitWf(s: Split) {
    && 0 <= s.current < s.count && (s.count <= |s.channels| || s.count == 1)
    && forall i :: 0 <= i < s.count ==> Usable(ChannelAt(s, i))
  }

  // --- Splitting and switching -----------------------------------------------------

  // Taking the tops of both stacks without looking is an error when one is empty.
  function FreshChannel(d: List): Channel
    requires d.clips != [] && d.texs != []
  {
    Channel([Cmd(0, CurrentClip(d), CurrentTexture(d), 0, None)], [])
  }

  function SplitInto(s: Split, n: int): Split
    requires s.count == 1 && s.current == 0 && 1 <= n && s.list.clips != [] && s.list.texs != []
  {
    var kept := if |s.channels| <= n then [] else s.channels[n..];
    var each := FreshChannel(s.list);
    Split(s.list, 0, n, [Channel([], [])] + seq(n - 1, i => each) + kept)
  }

  function SetCurrentChannel(s: Split, i: int): Split
    requires 0 <= s.current < s.count && 0 <= i < s.count && (s.count <= |s.channels| || s.count == 1)
  {
    if i == s.current then s
    else
      var ch := s.channels[i];
      Split(s.list.(cmds := ch.cmds, idx := ch.idx), i, s.count,
            s.channels[s.current := Channel(s.list.cmds, s.list.idx)])
  }

  lemma SplitKeeps(s: Split, n: int)
    requires SplitWf(s) && s.count == 1 && 1 <= n && s.list.clips != [] && s.list.texs != []
    ensures var s' := SplitInto(s, n);
            && SplitWf(s') && s'.list == s.list && s'.count == n && s'.current == 0
            && Shows(ChannelAt(s', 0)) == Shown(s.list)
            && |s'.channels| == (if |s.channels| < n then n else |s.channels|)
            && (forall i :: n <= i < |s.channels| ==> s'.channels[i] == s.channels[i])
            && forall i :: 1 <= i < n ==> Shows(ChannelAt(s', i)) == []
  {
    hide Sound, Shows;
    var s', ch := SplitInto(s, n), FreshChannel(s.list);
    assert ChannelAt(s', 0) == ChannelAt(s, 0) == Channel(s.list.cmds, s.list.idx);
    FreshIsUsable(s.list);
    assert Shows(ChannelAt(s, 0)) == Shown(s.list) by {
      assert Usable(ChannelAt(s, 0));
      ListShows(s.list);
    }
    forall i | 1 <= i < n ensures ChannelAt(s', i) == ch {
    }
  }

  lemma FreshIsUsable(d: List)
    requires d.clips != [] && d.texs != []
    ensures Usable(FreshChannel(d)) && Shows(FreshChannel(d)) == []
  {
    var ch := FreshChannel(d);
    EmptyShowsNothing([], [], ch.cmds[0]);
    assert [] + [ch.cmds[0]] == ch.cmds;
  }

  lemma ListShows(d: List)
    requires Sound(Channel(d.cmds, d.idx))
    ensures Wf(d) && Shows(Channel(d.cmds, d.idx)) == Shown(d)
  {
  }

  lemma SwitchKeeps(s: Split, i: int)
    requires SplitWf(s) && 0 <= i < s.count
    ensures var s' := SetCurrentChannel(s, i);
            && SplitWf(s') && s'.count == s.count && s'.current == i
            && s'.list.clips == s.list.clips && s'.list.texs == s.list.texs && s'.list.fullscreen == s.list.fullscreen
            && forall k :: 0 <= k < s.count ==> ChannelAt(s', k) == ChannelAt(s, k)
  {
    var s' := SetCurrentChannel(s, i);
    assert forall k :: 0 <= k < s.count ==> ChannelAt(s', k) == ChannelAt(s, k);
    forall k | 0 <= k < s'.count ensures Usable(ChannelAt(s', k)) {
      assert Usable(ChannelAt(s, k));
    }
  }

  // A switch does not look at the stacks: the command it lands on is ready exactly when the
  // channel was left, or split off, under the same clip rectangle and texture.
  lemma SwitchIsReadyIff(s: Split, i: int)
    requires SplitWf(s) && 0 <= i < s.count
    ensures var last := ChannelAt(s, i).cmds[|ChannelAt(s, i).cmds| - 1];
            Ready(SetCurrentChannel(s, i).list)
            <==> last.clip == CurrentClip(s.list) && last.tex == CurrentTexture(s.list)
  {
    assert Usable(ChannelAt(s, i));
  }

  // So a clip rectangle pushed after the split is not in force on a channel not yet drawn to.
  lemma StaleAfterSplit(s: Split, n: int, i: int, c: Clip)
    requires SplitWf(s) && s.count == 1 && 1 <= i < n && s.list.clips != [] && s.list.texs != []
    ensures var pushed := SplitInto(s, n).(list := PushClipRect(s.list, c));
            Ready(SetCurrentChannel(pushed, i).list) <==> c == CurrentClip(s.list)
  {
    SplitKeeps(s, n);
    assert Usable(ChannelAt(s, 0));
    ClipIsUpdated(s.list.(clips := s.list.clips + [c]));
  }

  // --- Merging ---------------------------------------------------------------------

  // Dropping an empty last command. A callback is never last, so none gets lost here.
  function Trimmed(ch: Channel): Channel {
    if ch.cmds != [] && ch.cmds[|ch.cmds| - 1].elemCount == 0 then ch.(cmds := ch.cmds[..|ch.cmds| - 1]) else ch
  }

  predicate CanMerge(a: Cmd, b: Cmd) {
    a.clip == b.clip && a.tex == b.tex && a.callback.None? && b.callback.None?
  }

  function Rebased(cs: seq<Cmd>, offset: int): (r: seq<Cmd>)
    ensures |r| == |cs|
  {
    if cs == [] then []
    else [cs[0].(idxOffset := offset)] + Rebased(cs[1..], offset + cs[0].elemCount)
  }

  // The first of the channel's commands joins the last one so far, if they agree.
  predicate Joins(acc: Channel, cs: seq<Cmd>) {
    acc.cmds != [] && cs != [] && CanMerge(acc.cmds[|acc.cmds| - 1], cs[0])
  }

  function Append(acc: Channel, cs: seq<Cmd>, idx: seq<int>): Channel {
    if Joins(acc, cs) then
      var c := acc.cmds[|acc.cmds| - 1];
      Channel(acc.cmds[..|acc.cmds| - 1] + [c.(elemCount := c.elemCount + cs[0].elemCount)]
                + Rebased(cs[1..], |acc.idx| + cs[0].elemCount),
              acc.idx + idx)
    else Channel(acc.cmds + Rebased(cs, |acc.idx|), acc.idx + idx)
  }

  function Fold(s: Split, n: int): Channel
    requires 1 <= n <= s.count && 0 <= s.current < s.count && (s.count <= |s.channels| || s.count == 1)
    decreases n
  {
    if n == 1 then Trimmed(ChannelAt(s, 0))
    else
      var ch := Trimmed(ChannelAt(s, n - 1));
      Append(Fold(s, n - 1), ch.cmds, ch.idx)
  }

  function MergedList(s: Split): List
    requires 0 <= s.current < s.count && (s.count <= |s.channels| || s.count == 1)
  {
    if s.count <= 1 then s.list
    else
      var all := Fold(s, s.count);
      UpdateTextureID(UpdateClipRect(s.list.(cmds := all.cmds, idx := all.idx)))
  }

  // What a list of commands shows, wherever its indices come to lie.
  ghost predicate Counts(cs: seq<Cmd>, n: int) {
    && Sum(cs) == n
    && forall i :: 0 <= i < |cs| ==> 0 <= cs[i].elemCount && (cs[i].callback.Some? ==> cs[i].elemCount == 0)
  }

  ghost function SpellOne(c: Cmd, own: seq<int>): seq<Event> {
    if c.callback.Some? then [Call(c.callback.value)] else Draws(own, c.clip, c.tex)
  }

  ghost function Spell(cs: seq<Cmd>, idx: seq<int>): seq<Event>
    requires Counts(cs, |idx|)
    decreases |cs|
  {
    if cs == [] then []
    else
      CountsLess(cs, |idx|);
      var own := idx[..cs[0].elemCount];
      SpellOne(cs[0], own) + Spell(cs[1..], idx[cs[0].elemCount..])
  }

  lemma {:induction false} SumFront(cs: seq<Cmd>)
    requires cs != []
    ensures Sum(cs) == cs[0].elemCount + Sum(cs[1..])
    decreases |cs|
  {
    if |cs| > 1 {
      SumFront(cs[..|cs| - 1]);
      assert cs[..|cs| - 1][1..] == cs[1..][..|cs| - 2];
    } else {
      assert cs[..0] == [] && cs[1..] == [];
    }
  }

  lemma CountsLess(cs: seq<Cmd>, n: int)
    requires Counts(cs, n) && cs != []
    ensures Counts(cs[1..], n - cs[0].elemCount) && 0 <= cs[0].elemCount <= n
  {
    SumFront(cs);
    SumIsNonNegative(cs[1..]);
  }

  lemma AppendOneShows(acc: Channel, c: Cmd, own: seq<int>)
    requires Sound(acc) && c.elemCount == |own| && (c.callback.Some? ==> own == [])
    ensures var more := Channel(acc.cmds + [c.(idxOffset := |acc.idx|)], acc.idx + own);
            Sound(more) && Shows(more) == Shows(acc) + SpellOne(c, own)
  {
    RenderMore(acc.cmds, acc.idx, c.(idxOffset := |acc.idx|), own);
  }

  // Commands put after others, at the offsets that come with their place, add what they show.
  lemma {:induction false} AppendShows(acc: Channel, cs: seq<Cmd>, idx: seq<int>)
    requires Sound(acc) && Counts(cs, |idx|)
    ensures var all := Channel(acc.cmds + Rebased(cs, |acc.idx|), acc.idx + idx);
            Sound(all) && Shows(all) == Shows(acc) + Spell(cs, idx)
    decreases |cs|
  {
    hide Sound, Shows, SpellOne;
    if cs == [] {
      assert acc.cmds + [] == acc.cmds && acc.idx + idx == acc.idx;
    } else {
      CountsLess(cs, |idx|);
      var c, own, rest := cs[0].(idxOffset := |acc.idx|), idx[..cs[0].elemCount], idx[cs[0].elemCount..];
      AppendOneShows(acc, cs[0], own);
      var more := Channel(acc.cmds + [c], acc.idx + own);
      AppendShows(more, cs[1..], rest);
      AppendFront(acc.cmds, c, cs, |acc.idx|);
      Associates(acc.idx, own, rest);
      assert idx == own + rest;
      Associates(Shows(acc), SpellOne(cs[0], own), Spell(cs[1..], rest));
    }
  }

  lemma AppendFront(front: seq<Cmd>, c: Cmd, cs: seq<Cmd>, offset: int)
    requires cs != [] && c == cs[0].(idxOffset := offset)
    ensures front + Rebased(cs, offset) == front + [c] + Rebased(cs[1..], offset + c.elemCount)
  {
  }

  lemma {:induction false} RebasedInPlace(cs: seq<Cmd>, from: nat)
    requires from <= |cs| && forall i :: 0 <= i < |cs| ==> cs[i].idxOffset == Sum(cs[..i])
    ensures Rebased(cs[from..], Sum(cs[..from])) == cs[from..]
    decreases |cs| - from
  {
    if from < |cs| {
      RebasedInPlace(cs, from + 1);
      assert cs[..from + 1][..from] == cs[..from];
      assert cs[from..][1..] == cs[from + 1..];
    }
  }

  lemma SoundSpells(ch: Channel)
    requires Sound(ch)
    ensures Counts(ch.cmds, |ch.idx|) && Shows(ch) == Spell(ch.cmds, ch.idx)
  {
    var none := Channel([], []);
    assert Sound(none) && Shows(none) == [];
    assert Sum(ch.cmds[..0]) == 0;
    RebasedInPlace(ch.cmds, 0);
    assert ch.cmds[0..] == ch.cmds;
    hide Sound, Shows, Spell, Rebased, Sum;
    AppendShows(none, ch.cmds, ch.idx);
    NothingInFront(ch.cmds);
    NothingInFront(ch.idx);
    NothingInFront(Spell(ch.cmds, ch.idx));
  }

  lemma TrimmedShows(ch: Channel)
    requires Usable(ch)
    ensures Sound(Trimmed(ch)) && Trimmed(ch).idx == ch.idx && Shows(Trimmed(ch)) == Shows(ch)
  {
    DropEmptyShows(ch);
  }

  lemma DropEmptyShows(ch: Channel)
    requires Usable(ch)
    ensures ch.cmds[|ch.cmds| - 1].elemCount == 0 ==>
              Sound(Trimmed(ch)) && Shows(Trimmed(ch)) == Shows(ch)
  {
    if ch.cmds[|ch.cmds| - 1].elemCount == 0 {
      PartitionsLess(ch.cmds, |ch.idx|);
      EmptyShowsNothing(Trimmed(ch).cmds, ch.idx, ch.cmds[|ch.cmds| - 1]);
      assert Trimmed(ch).cmds + [ch.cmds[|ch.cmds| - 1]] == ch.cmds;
    }
  }

  lemma GrowLastShows(acc: Channel, own: seq<int>) returns (grown: Channel)
    requires Sound(acc) && acc.cmds != [] && acc.cmds[|acc.cmds| - 1].callback.None?
    ensures var c := acc.cmds[|acc.cmds| - 1];
            && grown == Channel(acc.cmds[..|acc.cmds| - 1] + [c.(elemCount := c.elemCount + |own|)], acc.idx + own)
            && Sound(grown) && Shows(grown) == Shows(acc) + Draws(own, c.clip, c.tex)
  {
    hide Render, Partitions, Draws;
    var front, c := acc.cmds[..|acc.cmds| - 1], acc.cmds[|acc.cmds| - 1];
    PartitionsLess(acc.cmds, |acc.idx|);
    var below, above := acc.idx[..c.idxOffset], acc.idx[c.idxOffset..];
    GrowLast(front, below, above, own, c);
    assert acc.idx == below + above && acc.cmds == front + [c];
    grown := Channel(front + [c.(elemCount := c.elemCount + |own|)], acc.idx + own);
  }

  lemma JoinShows(acc: Channel, cs: seq<Cmd>, idx: seq<int>)
    requires Sound(acc) && Counts(cs, |idx|)
    ensures Sound(Append(acc, cs, idx)) && Shows(Append(acc, cs, idx)) == Shows(acc) + Spell(cs, idx)
  {
    hide Sound, Shows, Draws;
    if Joins(acc, cs) {
      CountsLess(cs, |idx|);
      var own, rest := idx[..cs[0].elemCount], idx[cs[0].elemCount..];
      var grown := GrowLastShows(acc, own);
      AppendShows(grown, cs[1..], rest);
      Associates(acc.idx, own, rest);
      assert idx == own + rest;
      Associates(Shows(acc), SpellOne(cs[0], own), Spell(cs[1..], rest));
    } else {
      AppendShows(acc, cs, idx);
    }
  }

  ghost function Flatten(s: Split, n: int): seq<Event>
    requires SplitWf(s) && 0 <= n <= s.count
    decreases n
  {
    if n == 0 then [] else Flatten(s, n - 1) + Shows(ChannelAt(s, n - 1))
  }

  lemma {:induction false} FoldShows(s: Split, n: int)
    requires SplitWf(s) && 1 <= n <= s.count
    ensures Sound(Fold(s, n)) && Shows(Fold(s, n)) == Flatten(s, n)
    decreases n
  {
    hide Sound, Shows, Spell, Counts;
    var ch := ChannelAt(s, n - 1);
    assert Usable(ch);
    TrimmedShows(ch);
    if n == 1 {
      assert Flatten(s, 0) == [];
      assert Flatten(s, 1) == Shows(ch);
    } else {
      FoldShows(s, n - 1);
      SoundSpells(Trimmed(ch));
      JoinShows(Fold(s, n - 1), Trimmed(ch).cmds, Trimmed(ch).idx);
    }
  }

  // Merging preserves meaning: the merged list shows channel 0, then channel 1, and so on, with
  // its commands in order over one index buffer, and is ready to go on.
  lemma MergeShows(s: Split)
    requires SplitWf(s)
    ensures Wf(MergedList(s)) && Shown(MergedList(s)) == Flatten(s, s.count)
    ensures s.count > 1 ==> Ready(MergedList(s))
  {
    if s.count > 1 {
      FoldShows(s, s.count);
      var all := Fold(s, s.count);
      var d := s.list.(cmds := all.cmds, idx := all.idx);
      UpdateClipRectKeeps(d);
      UpdateTextureIDKeeps(UpdateClipRect(d));
      UpdatesMakeReady(d);
    } else {
      assert Usable(ChannelAt(s, 0));
      assert Flatten(s, 0) == [];
    }
  }
}
