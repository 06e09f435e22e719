// Undo and redo as the user sees them: edits that splice a text, two stacks of inverse
// edits under a limit on records and stored characters, and the unlimited editor that the
// limited one has to agree with.
module EditHistory {
  import opened Common

  type Text = seq<int>

  // A record says: at where, delete del characters and insert ins.
  datatype Edit = Edit(where: nat, ins: seq<int>, del: nat)

  predicate Applies(e: Edit, t: Text) {
    e.where + e.del <= |t|
  }

  function Apply(e: Edit, t: Text): Text
    requires Applies(e, t)
  {
    t[..e.where] + e.ins + t[e.where + e.del..]
  }

  // The record for replacing del characters at where by n others: it puts the old ones back.
  function Cut(t: Text, where: nat, del: nat, n: nat): (u: Edit)
    requires where + del <= |t|
    ensures u.where == where && |u.ins| == del && u.del == n
  {
    Edit(where, t[where..where + del], n)
  }

  // The record that takes Apply(e, t) back to t.
  function Inverse(e: Edit, t: Text): Edit
    requires Applies(e, t)
  {
    Cut(t, e.where, e.del, |e.ins|)
  }

  lemma InverseRestores(e: Edit, t: Text)
    requires Applies(e, t)
    ensures Applies(Inverse(e, t), Apply(e, t)) && Apply(Inverse(e, t), Apply(e, t)) == t
    ensures Inverse(Inverse(e, t), Apply(e, t)) == e
  {
  }

  // The characters a stack has to keep.
  function CharsOf(es: seq<Edit>): nat {
    if es == [] then 0 else |es[0].ins| + CharsOf(es[1..])
  }

  function Flat(es: seq<Edit>): (s: seq<int>)
    ensures |s| == CharsOf(es)
  {
    if es == [] then [] else es[0].ins + Flat(es[1..])
  }

  lemma {:induction false} FlatSplits(a: seq<Edit>, b: seq<Edit>)
    ensures Flat(a + b) == Flat(a) + Flat(b)
    ensures CharsOf(a + b) == CharsOf(a) + CharsOf(b)
  {
    if a == [] {
      assert a + b == b;
      NothingInFront(Flat(b));
    } else {
      FlatSplits(a[1..], b);
      assert (a + b)[1..] == a[1..] + b;
      Associates(a[0].ins, Flat(a[1..]), Flat(b));
    }
  }

  lemma FlatLast(es: seq<Edit>, e: Edit)
    ensures Flat(es + [e]) == Flat(es) + e.ins && CharsOf(es + [e]) == CharsOf(es) + |e.ins|
  {
    FlatSplits(es, [e]);
  }

  // --- The limited editor ----------------------------------------------------------

  // The sizes of the two fixed arrays: records and characters.
  datatype Limits = Limits(records: nat, chars: nat)

  // undo's last and redo's first element are the ones to apply next.
  datatype History = History(text: Text, undo: seq<Edit>, redo: seq<Edit>)

  // The oldest records go until n more characters fit.
  function DropFor(undo: seq<Edit>, n: nat, chars: nat): (kept: seq<Edit>)
    requires n <= chars
    ensures CharsOf(kept) + n <= chars
    ensures |kept| <= |undo| && kept == undo[|undo| - |kept|..]
  {
    if CharsOf(undo) + n <= chars then undo else DropFor(undo[1..], n, chars)
  }

  // And no more of them than have to: any longer run of the most recent ones would not fit.
  lemma {:induction false} DropForKeepsMost(undo: seq<Edit>, n: nat, chars: nat, k: nat)
    requires n <= chars && |DropFor(undo, n, chars)| < k <= |undo|
    ensures CharsOf(undo[|undo| - k..]) + n > chars
    decreases |undo|
  {
    hide CharsOf;
    if k == |undo| {
      assert undo[0..] == undo;
    } else {
      DropForKeepsMost(undo[1..], n, chars, k);
      assert undo[1..][|undo| - 1 - k..] == undo[|undo| - k..];
    }
  }

  function Room(undo: seq<Edit>, records: nat): seq<Edit> {
    if |undo| == records && undo != [] then undo[1..] else undo
  }

  // The undo stack after u is recorded, unless its characters could never fit, in which case
  // nothing can be undone any more.
  function Recorded(undo: seq<Edit>, u: Edit, lim: Limits): seq<Edit> {
    if |u.ins| > lim.chars then [] else DropFor(Room(undo, lim.records), |u.ins|, lim.chars) + [u]
  }

  // A record is added to the longest run of recent ones for which there is room, in records and in
  // characters together.
  lemma RecordedKeepsMost(undo: seq<Edit>, u: Edit, lim: Limits, k: nat)
    requires |undo| <= lim.records && 1 <= lim.records
    ensures |u.ins| > lim.chars ==> Recorded(undo, u, lim) == []
    ensures |u.ins| <= lim.chars ==>
              var n := |Recorded(undo, u, lim)| - 1;
              && 0 <= n <= |undo| && Recorded(undo, u, lim) == undo[|undo| - n..] + [u]
              && n + 1 <= lim.records && CharsOf(undo[|undo| - n..]) + |u.ins| <= lim.chars
              && (n < k <= |undo| ==> k + 1 > lim.records || CharsOf(undo[|undo| - k..]) + |u.ins| > lim.chars)
  {
    hide CharsOf, DropFor, Room;
    if |u.ins| <= lim.chars {
      var room := Room(undo, lim.records);
      var n := |DropFor(room, |u.ins|, lim.chars)|;
      RoomIsRecent(undo, lim.records, n);
      if n < k <= |room| {
        DropForKeepsMost(room, |u.ins|, lim.chars, k);
        RoomIsRecent(undo, lim.records, k);
      }
    }
  }

  lemma RoomIsRecent(undo: seq<Edit>, records: nat, k: nat)
    requires |undo| <= records && 1 <= records && k <= |Room(undo, records)|
    ensures var room := Room(undo, records);
            && |room| == (if |undo| == records then records - 1 else |undo|)
            && room[|room| - k..] == undo[|undo| - k..]
  {
  }

  // An edit: the redo stack is flushed and the inverse is recorded.
  function Splice(lim: Limits, h: History, e: Edit): History
    requires Applies(e, h.text)
  {
    History(Apply(e, h.text), Recorded(h.undo, Inverse(e, h.text), lim), [])
  }

  // The three fates of an undo, decided by the room for the characters it deletes.
  predicate Drops(lim: Limits, h: History)
    requires h.undo != []
  {
    var d := h.undo[|h.undo| - 1].del;
    d > 0 && CharsOf(h.undo) + d >= lim.chars
  }

  predicate Forces(lim: Limits, h: History)
    requires h.undo != []
  {
    var d := h.undo[|h.undo| - 1].del;
    d > 0 && CharsOf(h.undo) + d < lim.chars && CharsOf(h.undo) + d + CharsOf(h.redo) > lim.chars
  }

  // The redo record an undo files.
  function UndoneBy(lim: Limits, h: History): Edit
    requires h.undo != [] && Applies(h.undo[|h.undo| - 1], h.text)
  {
    var u := h.undo[|h.undo| - 1];
    if Drops(lim, h) then Edit(u.where, [], |u.ins|) else Inverse(u, h.text)
  }

  // Undo, when it does not have to discard redo records: with no room for them the deleted
  // characters are dropped and only the deletion can be redone.
  function Undo(lim: Limits, h: History): History
    requires h.undo != [] ==> Applies(h.undo[|h.undo| - 1], h.text)
  {
    if h.undo == [] then h
    else
      History(Apply(h.undo[|h.undo| - 1], h.text), h.undo[..|h.undo| - 1], [UndoneBy(lim, h)] + h.redo)
  }

  function Redo(h: History): History
    requires h.redo != [] ==> Applies(h.redo[0], h.text)
  {
    if h.redo == [] then h
    else
      var r := h.redo[0];
      History(Apply(r, h.text), h.undo + [Inverse(r, h.text)], h.redo[1..])
  }

  // --- What every step keeps -------------------------------------------------------

  // Undoing es one by one from t, last first, gives the texts ts, last first.
  predicate Unwinds(t: Text, es: seq<Edit>, ts: seq<Text>)
    decreases |es|
  {
    && |es| == |ts|
    && (es != [] ==>
          var (e, t') := (es[|es| - 1], ts[|ts| - 1]);
          Applies(e, t) && Apply(e, t) == t' && Unwinds(t', es[..|es| - 1], ts[..|ts| - 1]))
  }

  // Redoing es one by one from t, first first, gives the texts ts.
  predicate Rewinds(t: Text, es: seq<Edit>, ts: seq<Text>)
    decreases |es|
  {
    && |es| == |ts|
    && (es != [] ==> Applies(es[0], t) && Apply(es[0], t) == ts[0] && Rewinds(ts[0], es[1..], ts[1..]))
  }

  // When the next redo is due, the characters it deletes will fit below the characters still
  // kept for redoing; and so on down the redo stack.
  predicate RedoRoom(chars: nat, used: nat, redo: seq<Edit>)
    decreases |redo|
  {
    redo != [] ==>
      && used + redo[0].del + CharsOf(redo) <= chars
      && (redo[0].ins != [] ==> used + redo[0].del + |redo[0].ins| < chars)
      && RedoRoom(chars, used + redo[0].del, redo[1..])
  }

  predicate Bounded(lim: Limits, h: History) {
    && |h.undo| + |h.redo| <= lim.records
    && CharsOf(h.undo) + CharsOf(h.redo) <= lim.chars
    && RedoRoom(lim.chars, CharsOf(h.undo), h.redo)
  }

  lemma SpliceKeepsBounded(lim: Limits, h: History, e: Edit)
    requires Applies(e, h.text) && 0 < lim.records && Bounded(lim, h)
    ensures Bounded(lim, Splice(lim, h, e))
  {
    var u := Inverse(e, h.text);
    if |u.ins| <= lim.chars {
      FlatLast(DropFor(Room(h.undo, lim.records), |u.ins|, lim.chars), u);
    }
  }

  lemma UndoKeepsBounded(lim: Limits, h: History)
    requires Bounded(lim, h) && h.undo != [] && Applies(h.undo[|h.undo| - 1], h.text) && !Forces(lim, h)
    ensures Bounded(lim, Undo(lim, h))
  {
    var u, rest := h.undo[|h.undo| - 1], h.undo[..|h.undo| - 1];
    assert h.undo == rest + [u];
    FlatLast(rest, u);
    var h' := Undo(lim, h);
    assert h'.redo[1..] == h.redo;
  }

  // What the bounds say about the next redo: the characters it deletes fit between the two pools.
  lemma NextRedoHasRoom(lim: Limits, h: History)
    requires Bounded(lim, h) && h.redo != []
    ensures CharsOf(h.undo) + h.redo[0].del <= lim.chars - CharsOf(h.redo)
  {
  }

  lemma RedoKeepsBounded(lim: Limits, h: History)
    requires Bounded(lim, h) && h.redo != [] && Applies(h.redo[0], h.text)
    ensures Bounded(lim, Redo(h))
  {
    FlatLast(h.undo, Inverse(h.redo[0], h.text));
  }

  // --- Undo and redo are inverses --------------------------------------------------

  lemma RedoThenUndo(lim: Limits, h: History)
    requires Bounded(lim, h) && h.redo != [] && Applies(h.redo[0], h.text)
    ensures var h' := Redo(h);
            Applies(h'.undo[|h'.undo| - 1], h'.text) && !Forces(lim, h') && Undo(lim, h') == h
  {
    var r := h.redo[0];
    FlatLast(h.undo, Inverse(r, h.text));
    InverseRestores(r, h.text);
    assert [r] + h.redo[1..] == h.redo;
  }

  // Undo then redo is the identity exactly when the deleted characters could be kept.
  lemma UndoThenRedoIff(lim: Limits, h: History)
    requires Bounded(lim, h) && h.undo != [] && Applies(h.undo[|h.undo| - 1], h.text) && !Forces(lim, h)
    ensures var h' := Undo(lim, h);
            && Applies(h'.redo[0], h'.text)
            && var del := h.undo[|h.undo| - 1].del;
               Redo(h') == h <==> del == 0 || CharsOf(h.undo) + del < lim.chars
  {
    var u, rest := h.undo[|h.undo| - 1], h.undo[..|h.undo| - 1];
    InverseRestores(u, h.text);
    assert h.undo == rest + [u];
    var h' := Undo(lim, h);
    assert h'.redo[1..] == h.redo;
    if Drops(lim, h) {
      assert |Redo(h').text| == |h.text| - u.del;
    }
  }

  // --- The unlimited editor --------------------------------------------------------

  datatype Ideal = Ideal(past: seq<Text>, present: Text, future: seq<Text>)

  datatype Command = DoSplice(e: Edit) | DoUndo | DoRedo

  function Step(lim: Limits, h: History, cmd: Command): History
    requires Legal(lim, h, cmd)
  {
    match cmd
    case DoSplice(e) => Splice(lim, h, e)
    case DoUndo => Undo(lim, h)
    case DoRedo => Redo(h)
  }

  // That an edit lies within the text it is made to, and that an undo has not to discard redo
  // records. Nothing is asked of a redo.
  predicate Asked(lim: Limits, h: History, cmd: Command) {
    match cmd
    case DoSplice(e) => Applies(e, h.text) && 0 < lim.records
    case DoUndo => h.undo != [] ==> !Forces(lim, h)
    case DoRedo => true
  }

  // And that the record an undo or a redo takes from its stack lies within the text.
  predicate Legal(lim: Limits, h: History, cmd: Command) {
    && Asked(lim, h, cmd)
    && (cmd.DoUndo? && h.undo != [] ==> Applies(h.undo[|h.undo| - 1], h.text))
    && (cmd.DoRedo? && h.redo != [] ==> Applies(h.redo[0], h.text))
  }

  // No characters are dropped for want of room to keep them for redoing.
  predicate KeepsAll(lim: Limits, h: History, cmd: Command) {
    cmd.DoUndo? && h.undo != [] ==> !Drops(lim, h)
  }

  // The texts shown before the steps that are still in effect.
  function PastStep(past: seq<Text>, h: History, cmd: Command): seq<Text> {
    match cmd
    case DoSplice(_) => past + [h.text]
    case DoUndo => if h.undo == [] || past == [] then past else past[..|past| - 1]
    case DoRedo => if h.redo == [] then past else past + [h.text]
  }

  // Undoing what the limited editor remembers gives the most recent of them.
  predicate Remembers(h: History, past: seq<Text>) {
    |h.undo| <= |past| && Unwinds(h.text, h.undo, past[|past| - |h.undo|..])
  }

  // The editor with an unlimited history; it goes along when the limited one has nothing to undo.
  function IdealStep(i: Ideal, h: History, cmd: Command): Ideal {
    match cmd
    case DoSplice(e) =>
      if Applies(e, i.present) then Ideal(i.past + [i.present], Apply(e, i.present), []) else i
    case DoUndo =>
      if h.undo == [] || i.past == [] then i
      else Ideal(i.past[..|i.past| - 1], i.past[|i.past| - 1], [i.present] + i.future)
    case DoRedo =>
      if i.future == [] then i
      else Ideal(i.past + [i.present], i.future[0], i.future[1..])
  }

  // The limited editor shows the same text, remembers its past, and redoing gives all its future.
  predicate Agrees(h: History, i: Ideal) {
    h.text == i.present && Remembers(h, i.past) && Rewinds(h.text, h.redo, i.future)
  }

  lemma LastOfPrefix<T>(s: seq<T>, k: nat)
    requires 1 <= k <= |s|
    ensures s[|s| - k..][..k - 1] == s[..|s| - 1][|s| - 1 - (k - 1)..]
    ensures s[|s| - k..][k - 1] == s[|s| - 1]
  {
    var a, b := s[|s| - k..][..k - 1], s[..|s| - 1][|s| - 1 - (k - 1)..];
    assert |a| == |b|;
    assert forall i :: 0 <= i < k - 1 ==> a[i] == s[|s| - k + i] && b[i] == s[|s| - k + i];
  }

  lemma {:induction false} UnwindsLess(t: Text, es: seq<Edit>, ts: seq<Text>, k: nat)
    requires Unwinds(t, es, ts) && k <= |es|
    ensures Unwinds(t, es[|es| - k..], ts[|ts| - k..])
    decreases |es|
  {
    if k > 0 {
      var (es', ts') := (es[..|es| - 1], ts[..|ts| - 1]);
      UnwindsLess(ts[|ts| - 1], es', ts', k - 1);
      LastOfPrefix(es, k);
      LastOfPrefix(ts, k);
    }
  }

  lemma UnwindsMore(t: Text, t': Text, es: seq<Edit>, ts: seq<Text>, e: Edit)
    requires Unwinds(t', es, ts) && Applies(e, t) && Apply(e, t) == t'
    ensures Unwinds(t, es + [e], ts + [t'])
  {
    assert (es + [e])[..|es|] == es && (ts + [t'])[..|ts|] == ts;
  }

  lemma NothingUnwinds(t: Text, ts: seq<Text>)
    requires |ts| == 0
    ensures Unwinds(t, [], ts) && Rewinds(t, [], ts)
  {
  }

  // Keeping the n most recent records and adding the one for a new edit.
  lemma KeptUnwinds(t: Text, t': Text, es: seq<Edit>, past: seq<Text>, n: nat, u: Edit)
    requires n <= |es| <= |past| && Unwinds(t, es, past[|past| - |es|..])
    requires Applies(u, t') && Apply(u, t') == t
    ensures Unwinds(t', es[|es| - n..] + [u], (past + [t])[|past| - n..])
  {
    hide Apply, Applies, Unwinds;
    var ts := past[|past| - |es|..];
    UnwindsLess(t, es, ts, n);
    UnwindsMore(t', t, es[|es| - n..], ts[|ts| - n..], u);
    assert (past + [t])[|past| - n..] == ts[|ts| - n..] + [t];
  }

  lemma SpliceRemembers(lim: Limits, h: History, past: seq<Text>, e: Edit)
    requires Applies(e, h.text) && 0 < lim.records && Remembers(h, past)
    ensures Remembers(Splice(lim, h, e), past + [h.text])
  {
    hide Apply, Inverse, Applies, Unwinds, Splice;
    InverseRestores(e, h.text);
    SpliceKeepsRecent(lim, h, e);
    var undo, t' := Splice(lim, h, e).undo, Apply(e, h.text);
    if undo == [] {
      NothingUnwinds(t', (past + [h.text])[|past| + 1..]);
    } else {
      KeptUnwinds(h.text, t', h.undo, past, |undo| - 1, Inverse(e, h.text));
    }
  }

  // An edit leaves no records, or the most recent ones and its own.
  lemma SpliceKeepsRecent(lim: Limits, h: History, e: Edit)
    requires Applies(e, h.text) && 0 < lim.records
    ensures var (kept, n) := (Splice(lim, h, e).undo, |Splice(lim, h, e).undo| - 1);
            kept == [] || (n <= |h.undo| && kept == h.undo[|h.undo| - n..] + [Inverse(e, h.text)])
    ensures Splice(lim, h, e).text == Apply(e, h.text) && Splice(lim, h, e).redo == []
  {
    hide Apply, Inverse;
  }

  // The next undo is possible, and goes back to the last of the past.
  lemma UndoRemembers(lim: Limits, h: History, past: seq<Text>)
    requires Remembers(h, past) && h.undo != []
    ensures past != [] && Applies(h.undo[|h.undo| - 1], h.text)
    ensures Undo(lim, h).text == past[|past| - 1] && Remembers(Undo(lim, h), past[..|past| - 1])
  {
    hide Apply, Applies, Drops, UndoneBy;
    LastOfPrefix(past, |h.undo|);
  }

  lemma RedoRemembers(h: History, past: seq<Text>)
    requires Remembers(h, past) && h.redo != [] && Applies(h.redo[0], h.text)
    ensures Remembers(Redo(h), past + [h.text])
  {
    InverseRestores(h.redo[0], h.text);
    hide Apply, Applies, Inverse;
    var r, n := h.redo[0], |h.undo|;
    UnwindsMore(Apply(r, h.text), h.text, h.undo, past[|past| - n..], Inverse(r, h.text));
    assert (past + [h.text])[|past| - n..] == past[|past| - n..] + [h.text];
  }

  lemma StepRemembers(lim: Limits, h: History, past: seq<Text>, cmd: Command)
    requires Remembers(h, past) && Legal(lim, h, cmd)
    ensures Remembers(Step(lim, h, cmd), PastStep(past, h, cmd))
  {
    hide Splice, Undo, Redo, Applies, Forces, Remembers;
    match cmd
    case DoSplice(e) => SpliceRemembers(lim, h, past, e);
    case DoUndo =>
      if h.undo != [] { UndoRemembers(lim, h, past); } else { NothingDone(lim, h); }
    case DoRedo =>
      if h.redo != [] { RedoRemembers(h, past); } else { NothingDone(lim, h); }
  }

  lemma NothingDone(lim: Limits, h: History)
    ensures h.undo == [] ==> Undo(lim, h) == h
    ensures h.redo == [] ==> Redo(h) == h
  {
  }

  lemma StepKeepsBounded(lim: Limits, h: History, cmd: Command)
    requires Bounded(lim, h) && Legal(lim, h, cmd)
    ensures Bounded(lim, Step(lim, h, cmd))
  {
    match cmd
    case DoSplice(e) => SpliceKeepsBounded(lim, h, e);
    case DoUndo => if h.undo != [] { UndoKeepsBounded(lim, h); }
    case DoRedo => if h.redo != [] { RedoKeepsBounded(lim, h); }
  }

  // Where all characters are kept, redoing gives the future.
  lemma UndoRewinds(lim: Limits, h: History, future: seq<Text>)
    requires h.undo != [] && Applies(h.undo[|h.undo| - 1], h.text) && !Drops(lim, h)
    requires Rewinds(h.text, h.redo, future)
    ensures Rewinds(Undo(lim, h).text, Undo(lim, h).redo, [h.text] + future)
  {
    var u, h' := h.undo[|h.undo| - 1], Undo(lim, h);
    InverseRestores(u, h.text);
    hide Apply, Applies, Inverse, Drops;
    assert h'.redo[0] == Inverse(u, h.text) && h'.redo[1..] == h.redo && ([h.text] + future)[1..] == future;
  }

  lemma StepAgrees(lim: Limits, h: History, i: Ideal, cmd: Command)
    requires Agrees(h, i) && Legal(lim, h, cmd) && KeepsAll(lim, h, cmd)
    ensures Agrees(Step(lim, h, cmd), IdealStep(i, h, cmd))
    ensures IdealStep(i, h, cmd).past == PastStep(i.past, h, cmd)
  {
    StepRemembers(lim, h, i.past, cmd);
    hide Remembers, Unwinds, Apply, Inverse, Drops, Forces, UndoneBy, Recorded;
    match cmd
    case DoSplice(e) => NothingUnwinds(Apply(e, h.text), []);
    case DoUndo =>
      if h.undo != [] {
        UndoRemembers(lim, h, i.past);
        UndoRewinds(lim, h, i.future);
      }
    case DoRedo =>
  }

  // Where all characters are kept, records always lie within the text.
  lemma KeptStepIsLegal(lim: Limits, h: History, i: Ideal, cmd: Command)
    requires Agrees(h, i) && Asked(lim, h, cmd)
    ensures Legal(lim, h, cmd)
  {
    hide Remembers, Forces;
    if cmd.DoUndo? && h.undo != [] {
      UndoRemembers(lim, h, i.past);
    }
  }

  // --- Runs ------------------------------------------------------------------------

  // A run of which nothing more is asked than Asked, as far as it gets.
  ghost predicate AskedRun(lim: Limits, h: History, cmds: seq<Command>)
    decreases |cmds|
  {
    cmds == []
    || (Asked(lim, h, cmds[0]) && (Legal(lim, h, cmds[0]) ==> AskedRun(lim, Step(lim, h, cmds[0]), cmds[1..])))
  }

  ghost predicate LegalRun(lim: Limits, h: History, cmds: seq<Command>)
    decreases |cmds|
  {
    cmds == [] || (Legal(lim, h, cmds[0]) && LegalRun(lim, Step(lim, h, cmds[0]), cmds[1..]))
  }

  function Run(lim: Limits, h: History, cmds: seq<Command>): History
    requires LegalRun(lim, h, cmds)
    decreases |cmds|
  {
    if cmds == [] then h else Run(lim, Step(lim, h, cmds[0]), cmds[1..])
  }

  function IdealRun(lim: Limits, h: History, i: Ideal, cmds: seq<Command>): Ideal
    requires LegalRun(lim, h, cmds)
    decreases |cmds|
  {
    if cmds == [] then i else IdealRun(lim, Step(lim, h, cmds[0]), IdealStep(i, h, cmds[0]), cmds[1..])
  }

  function PastRun(lim: Limits, h: History, past: seq<Text>, cmds: seq<Command>): seq<Text>
    requires LegalRun(lim, h, cmds)
    decreases |cmds|
  {
    if cmds == [] then past else PastRun(lim, Step(lim, h, cmds[0]), PastStep(past, h, cmds[0]), cmds[1..])
  }

  ghost predicate KeepingRun(lim: Limits, h: History, cmds: seq<Command>)
    decreases |cmds|
  {
    cmds == []
    || (KeepsAll(lim, h, cmds[0]) && (Legal(lim, h, cmds[0]) ==> KeepingRun(lim, Step(lim, h, cmds[0]), cmds[1..])))
  }

  // After any run in which no redo record had to be discarded and none was redone beyond the text
  // the editor is within its bounds and remembers its past, whether or not redo characters were
  // dropped on the way.
  lemma {:induction false} RunRemembers(lim: Limits, h: History, past: seq<Text>, cmds: seq<Command>)
    requires Bounded(lim, h) && Remembers(h, past) && LegalRun(lim, h, cmds)
    ensures Bounded(lim, Run(lim, h, cmds)) && Remembers(Run(lim, h, cmds), PastRun(lim, h, past, cmds))
    decreases |cmds|
  {
    hide Bounded, Remembers, Step, Legal, PastStep;
    if cmds != [] {
      StepKeepsBounded(lim, h, cmds[0]);
      StepRemembers(lim, h, past, cmds[0]);
      RunRemembers(lim, Step(lim, h, cmds[0]), PastStep(past, h, cmds[0]), cmds[1..]);
    }
  }

  // Where none were dropped, every record redone lies within the text, and the editor agrees with
  // the unlimited one, redo stack included.
  lemma {:induction false} RunAgrees(lim: Limits, h: History, i: Ideal, cmds: seq<Command>)
    requires Agrees(h, i) && AskedRun(lim, h, cmds) && KeepingRun(lim, h, cmds)
    ensures LegalRun(lim, h, cmds)
    ensures Agrees(Run(lim, h, cmds), IdealRun(lim, h, i, cmds))
    ensures IdealRun(lim, h, i, cmds).past == PastRun(lim, h, i.past, cmds)
    decreases |cmds|
  {
    hide Agrees, Step, Asked, Legal, IdealStep, PastStep, KeepsAll;
    if cmds != [] {
      KeptStepIsLegal(lim, h, i, cmds[0]);
      StepAgrees(lim, h, i, cmds[0]);
      RunAgrees(lim, Step(lim, h, cmds[0]), IdealStep(i, h, cmds[0]), cmds[1..]);
    }
  }

  predicate IsEmpty(h: History) {
    h.undo == [] && h.redo == []
  }

  lemma EmptyIsBounded(lim: Limits, h: History)
    requires IsEmpty(h)
    ensures Bounded(lim, h) && Remembers(h, [])
  {
  }

  // --- When redoing stays within the text ------------------------------------------

  // k redos in a row, none of them beyond the text.
  ghost predicate CanRedo(h: History, k: nat)
    decreases k
  {
    k > 0 ==> h.redo != [] && Applies(h.redo[0], h.text) && CanRedo(Redo(h), k - 1)
  }

  // The positions and lengths of records to be redone one by one, from a text of len characters.
  predicate RedosFit(len: int, es: seq<Edit>)
    decreases |es|
  {
    es != [] ==> es[0].where + es[0].del <= len && RedosFit(len - es[0].del + |es[0].ins|, es[1..])
  }

  lemma {:induction false} CanRedoIff(h: History)
    ensures CanRedo(h, |h.redo|) <==> RedosFit(|h.text|, h.redo)
    decreases |h.redo|
  {
    if h.redo != [] && Applies(h.redo[0], h.text) {
      CanRedoIff(Redo(h));
    }
  }

  // Where characters are dropped the records below will be redone on a text that lacks them.
  lemma UndoFitsIff(lim: Limits, h: History)
    requires h.undo != [] && Applies(h.undo[|h.undo| - 1], h.text)
    ensures var (h', missing) := (Undo(lim, h), if Drops(lim, h) then h.undo[|h.undo| - 1].del else 0);
            RedosFit(|h'.text|, h'.redo) <==> RedosFit(|h.text| - missing, h.redo)
  {
    assert Undo(lim, h).redo[1..] == h.redo;
    hide Drops;
  }

  // So an undo that drops characters must leave the records below it room.
  predicate Careful(lim: Limits, h: History, cmd: Command) {
    cmd.DoUndo? && h.undo != [] && Drops(lim, h) ==> RedosFit(|h.text| - h.undo[|h.undo| - 1].del, h.redo)
  }

  ghost predicate CarefulRun(lim: Limits, h: History, cmds: seq<Command>)
    decreases |cmds|
  {
    cmds == []
    || (Careful(lim, h, cmds[0]) && (Legal(lim, h, cmds[0]) ==> CarefulRun(lim, Step(lim, h, cmds[0]), cmds[1..])))
  }

  // The run can be carried out, and at every point of it all there is to redo could be redone.
  ghost predicate AlwaysRedoable(lim: Limits, h: History, cmds: seq<Command>)
    decreases |cmds|
  {
    && CanRedo(h, |h.redo|)
    && (cmds != [] ==> Legal(lim, h, cmds[0]) && AlwaysRedoable(lim, Step(lim, h, cmds[0]), cmds[1..]))
  }

  lemma FittingStep(lim: Limits, h: History, past: seq<Text>, cmd: Command)
    requires Remembers(h, past) && RedosFit(|h.text|, h.redo) && Asked(lim, h, cmd)
    ensures Legal(lim, h, cmd)
    ensures RedosFit(|Step(lim, h, cmd).text|, Step(lim, h, cmd).redo) <==> Careful(lim, h, cmd)
  {
    hide Remembers, Drops, Forces, Recorded;
    if cmd.DoUndo? && h.undo != [] {
      UndoRemembers(lim, h, past);
      UndoFitsIff(lim, h);
    }
  }

  lemma {:induction false} RedoableIff(lim: Limits, h: History, past: seq<Text>, cmds: seq<Command>)
    requires Remembers(h, past) && RedosFit(|h.text|, h.redo) && AskedRun(lim, h, cmds)
    ensures AlwaysRedoable(lim, h, cmds) <==> CarefulRun(lim, h, cmds)
    decreases |cmds|
  {
    hide Remembers, RedosFit, Asked, Legal, Careful, Step, PastStep;
    CanRedoIff(h);
    if cmds != [] {
      FittingStep(lim, h, past, cmds[0]);
      var h' := Step(lim, h, cmds[0]);
      CanRedoIff(h');
      if Careful(lim, h, cmds[0]) {
        StepRemembers(lim, h, past, cmds[0]);
        RedoableIff(lim, h', PastStep(past, h, cmds[0]), cmds[1..]);
      }
    }
  }

  // From an empty history, over any run in which no redo record has to be discarded: redoing never
  // goes beyond the text, wherever and however often it is asked for, if and only if every undo
  // that drops characters leaves the records below it room.
  lemma RedosStayInsideIff(lim: Limits, h0: History, cmds: seq<Command>)
    requires IsEmpty(h0) && AskedRun(lim, h0, cmds)
    ensures AlwaysRedoable(lim, h0, cmds) <==> CarefulRun(lim, h0, cmds)
  {
    EmptyIsBounded(lim, h0);
    RedoableIff(lim, h0, [], cmds);
  }

  // For the record right below a dropping undo: it applies, once that undo is redone, if and only if
  // the text could spare the dropped characters.
  lemma DropStrandsIff(lim: Limits, h: History)
    requires h.undo != [] && Applies(h.undo[|h.undo| - 1], h.text) && Drops(lim, h) && h.redo != []
    ensures var (u, r, h') := (h.undo[|h.undo| - 1], h.redo[0], Undo(lim, h));
            && Applies(h'.redo[0], h'.text)
            && Redo(h').redo == h.redo
            && (Applies(r, Redo(h').text) <==> r.where + r.del + u.del <= |h.text|)
  {
    var h' := Undo(lim, h);
    assert h'.redo[1..] == h.redo;
    hide Drops;
  }

  // The "no room" branch of redo is never taken: after any run from an empty history, with or
  // without dropped characters, what the next redo deletes fits between the two pools.
  lemma RedoAlwaysHasRoom(lim: Limits, h0: History, cmds: seq<Command>)
    requires IsEmpty(h0) && LegalRun(lim, h0, cmds)
    ensures var h := Run(lim, h0, cmds);
            h.redo != [] ==> CharsOf(h.undo) + h.redo[0].del <= lim.chars - CharsOf(h.redo)
  {
    hide *;
    EmptyIsBounded(lim, h0);
    RunRemembers(lim, h0, [], cmds);
    var h := Run(lim, h0, cmds);
    if h.redo != [] {
      NextRedoHasRoom(lim, h);
    }
  }

  // k undos in a row; dropping redo characters on the way does them no harm.
  ghost predicate CanUndo(lim: Limits, h: History, k: nat)
    decreases k
  {
    k > 0 ==>
      && h.undo != [] && Applies(h.undo[|h.undo| - 1], h.text) && !Forces(lim, h)
      && CanUndo(lim, Undo(lim, h), k - 1)
  }

  function UndoTimes(lim: Limits, h: History, k: nat): History
    requires CanUndo(lim, h, k)
    decreases k
  {
    if k == 0 then h else UndoTimes(lim, Undo(lim, h), k - 1)
  }

  lemma {:induction false} UndoTimesShows(lim: Limits, h: History, past: seq<Text>, k: nat)
    requires Remembers(h, past) && CanUndo(lim, h, k)
    ensures k <= |past| && UndoTimes(lim, h, k).text == if k == 0 then h.text else past[|past| - k]
    decreases k
  {
    hide Undo, Applies, Forces, Remembers;
    if k > 0 {
      UndoRemembers(lim, h, past);
      UndoTimesShows(lim, Undo(lim, h), past[..|past| - 1], k - 1);
    }
  }

  // From an empty history: after any legal run, the k-th undo in a row shows exactly the text
  // before the k-th most recent step that is still in effect, however many older records were
  // slid out of the fixed buffers and whatever was dropped from the redo side.
  lemma UndoShowsThePast(lim: Limits, h0: History, cmds: seq<Command>, k: nat)
    requires IsEmpty(h0) && LegalRun(lim, h0, cmds) && CanUndo(lim, Run(lim, h0, cmds), k) && k > 0
    ensures var past := PastRun(lim, h0, [], cmds);
            k <= |past| && UndoTimes(lim, Run(lim, h0, cmds), k).text == past[|past| - k]
  {
    hide *;
    EmptyIsBounded(lim, h0);
    RunRemembers(lim, h0, [], cmds);
    UndoTimesShows(lim, Run(lim, h0, cmds), PastRun(lim, h0, [], cmds), k);
  }

  // Runs that force a discard: any two insertions whose characters fit the buffer one at a time
  // but not both, once they are both to be redone. The second undo empties the text, and the redo
  // record it files has the position |s| of the one it should have joined, beyond the empty text.
  lemma DiscardsCanBeForced(lim: Limits, h0: History, s: Text, t: Text) returns (h: History, h': History)
    requires IsEmpty(h0) && h0.text == []
    requires 2 <= lim.records && 0 < |s| < lim.chars && 0 < |t| < lim.chars < |s| + |t|
    ensures Applies(Edit(0, s, 0), h0.text) && Applies(Edit(|s|, t, 0), Splice(lim, h0, Edit(0, s, 0)).text)
    ensures h == Splice(lim, Splice(lim, h0, Edit(0, s, 0)), Edit(|s|, t, 0)) && h.undo != []
    ensures Applies(h.undo[|h.undo| - 1], h.text) && h' == Undo(lim, h) && h'.undo != []
    ensures Applies(h'.undo[|h'.undo| - 1], h'.text) && Forces(lim, h')
    ensures Undo(lim, h').text == [] && h'.redo == [Edit(|s|, t, 0)] && !Applies(h'.redo[0], [])
  {
    hide Splice, Undo, CharsOf, Apply;
    var h1;
    h1, h := TwoInsertions(lim, h0, s, t);
    OneUndo(lim, s, t);
    h' := Undo(lim, h);
    LastUndo(lim, s, t);
  }

  // Runs that force no discard and yet strand a redo record: an insertion too long to be kept, and
  // one behind it that is kept. Undone twice and redone once, they leave an empty text, and the
  // next record to redo inserts at position |s| of it.
  lemma DropsCanStrandRedo(lim: Limits, h0: History, s: Text, t: Text)
    requires IsEmpty(h0) && h0.text == [] && 2 <= lim.records && 0 < |t| < lim.chars <= |s|
    ensures LegalRun(lim, h0, TwiceUndoneOnceRedone(s, t))
    ensures var h := Run(lim, h0, TwiceUndoneOnceRedone(s, t));
            h.text == [] && h.redo == [Edit(|s|, t, 0)] && !Applies(h.redo[0], h.text)
  {
    hide *;
    var h1, h2, h3, h4, h5 := StrandingSteps(lim, h0, s, t);
    StepByStep(lim, [h0, h1, h2, h3, h4, h5], TwiceUndoneOnceRedone(s, t));
  }

  function TwiceUndoneOnceRedone(s: Text, t: Text): (cmds: seq<Command>)
    ensures |cmds| == 5
  {
    [DoSplice(Edit(0, s, 0)), DoSplice(Edit(|s|, t, 0)), DoUndo, DoUndo, DoRedo]
  }

  ghost predicate Leads(lim: Limits, h: History, cmd: Command, h': History) {
    Legal(lim, h, cmd) && Step(lim, h, cmd) == h'
  }

  lemma StrandingSteps(lim: Limits, h0: History, s: Text, t: Text)
      returns (h1: History, h2: History, h3: History, h4: History, h5: History)
    requires IsEmpty(h0) && h0.text == [] && 2 <= lim.records && 0 < |t| < lim.chars <= |s|
    ensures var cmds := TwiceUndoneOnceRedone(s, t);
            && Leads(lim, h0, cmds[0], h1) && Leads(lim, h1, cmds[1], h2) && Leads(lim, h2, cmds[2], h3)
            && Leads(lim, h3, cmds[3], h4) && Leads(lim, h4, cmds[4], h5)
    ensures h5.text == [] && h5.redo == [Edit(|s|, t, 0)] && !Applies(h5.redo[0], h5.text)
  {
    hide *;
    h1, h2 := InsertedTwice(lim, h0, s, t);
    h3 := UndoneOnce(lim, h2, s, t);
    h4, h5 := UndoneAndRedone(lim, h3, s, t);
  }

  lemma InsertedTwice(lim: Limits, h0: History, s: Text, t: Text) returns (h1: History, h2: History)
    requires IsEmpty(h0) && h0.text == [] && 2 <= lim.records
    ensures Leads(lim, h0, TwiceUndoneOnceRedone(s, t)[0], h1) && Leads(lim, h1, TwiceUndoneOnceRedone(s, t)[1], h2)
    ensures h2 == History(s + t, [Edit(0, [], |s|), Edit(|s|, [], |t|)], [])
  {
    hide Leads;
    h1, h2 := TwoInsertions(lim, h0, s, t);
  }

  lemma UndoneOnce(lim: Limits, h2: History, s: Text, t: Text) returns (h3: History)
    requires h2 == History(s + t, [Edit(0, [], |s|), Edit(|s|, [], |t|)], []) && 0 < |t| < lim.chars
    ensures Leads(lim, h2, TwiceUndoneOnceRedone(s, t)[2], h3)
    ensures h3 == History(s, [Edit(0, [], |s|)], [Edit(|s|, t, 0)])
  {
    OneUndo(lim, s, t);
    hide Undo, Legal;
    h3 := History(s, [Edit(0, [], |s|)], [Edit(|s|, t, 0)]);
  }

  lemma UndoneAndRedone(lim: Limits, h3: History, s: Text, t: Text) returns (h4: History, h5: History)
    requires h3 == History(s, [Edit(0, [], |s|)], [Edit(|s|, t, 0)]) && lim.chars <= |s| && 0 < |s|
    ensures Leads(lim, h3, TwiceUndoneOnceRedone(s, t)[3], h4) && Leads(lim, h4, TwiceUndoneOnceRedone(s, t)[4], h5)
    ensures h5.text == [] && h5.redo == [Edit(|s|, t, 0)] && !Applies(h5.redo[0], h5.text)
  {
    DroppingUndo(lim, s, Edit(|s|, t, 0));
    hide Undo, Redo, Legal;
    h4, h5 := History([], [], [Edit(0, [], 0), Edit(|s|, t, 0)]), History([], [Edit(0, [], 0)], [Edit(|s|, t, 0)]);
  }

  lemma {:induction false} StepByStep(lim: Limits, hs: seq<History>, cmds: seq<Command>)
    requires |hs| == |cmds| + 1 && forall i :: 0 <= i < |cmds| ==> Leads(lim, hs[i], cmds[i], hs[i + 1])
    ensures LegalRun(lim, hs[0], cmds) && Run(lim, hs[0], cmds) == hs[|cmds|]
    decreases |cmds|
  {
    hide Legal, Step;
    if cmds != [] {
      assert Leads(lim, hs[0], cmds[0], hs[0 + 1]);
      StepByStep(lim, hs[1..], cmds[1..]);
    }
  }

  lemma DroppingUndo(lim: Limits, s: Text, f: Edit)
    requires lim.chars <= |s| && 0 < |s|
    ensures var (h, h') := (History(s, [Edit(0, [], |s|)], [f]), History([], [], [Edit(0, [], 0), f]));
            && Legal(lim, h, DoUndo) && Undo(lim, h) == h'
            && Legal(lim, h', DoRedo) && Redo(h') == History([], [Edit(0, [], 0)], [f])
  {
    assert [Edit(0, [], 0), f][1..] == [f];
  }

  lemma LastUndo(lim: Limits, s: Text, t: Text)
    requires 0 < |s| < lim.chars && 0 < |t| < lim.chars < |s| + |t|
    ensures var h := History(s, [Edit(0, [], |s|)], [Edit(|s|, t, 0)]);
            && Applies(h.undo[0], s) && Forces(lim, h) && Undo(lim, h).text == [] && !Applies(h.redo[0], [])
  {
    var u: Edit := Edit(0, [], |s|);
    assert CharsOf([u]) == 0 && CharsOf([Edit(|s|, t, 0)]) == |t|;
    assert Apply(u, s) == [];
    hide Apply, CharsOf;
  }

  lemma TwoInsertions(lim: Limits, h0: History, s: Text, t: Text) returns (h1: History, h2: History)
    requires IsEmpty(h0) && h0.text == [] && 2 <= lim.records
    ensures Leads(lim, h0, DoSplice(Edit(0, s, 0)), h1) && Leads(lim, h1, DoSplice(Edit(|s|, t, 0)), h2)
    ensures h2 == History(s + t, [Edit(0, [], |s|), Edit(|s|, [], |t|)], [])
  {
    assert CharsOf([]) == 0 && CharsOf([Edit(0, [], |s|)]) == 0;
    hide Splice, CharsOf;
    h1 := Appended(lim, h0, s);
    NothingInFront(s);
    NothingInFront([Edit(0, [], |s|)]);
    h2 := Appended(lim, h1, t);
  }

  lemma Appended(lim: Limits, h: History, s: Text) returns (h': History)
    requires |h.undo| < lim.records && CharsOf(h.undo) <= lim.chars
    ensures Leads(lim, h, DoSplice(Edit(|h.text|, s, 0)), h')
    ensures h' == History(h.text + s, h.undo + [Edit(|h.text|, [], |s|)], [])
  {
    AppendedInRoom(lim, h, s);
    hide Splice, CharsOf;
    h' := Splice(lim, h, Edit(|h.text|, s, 0));
  }

  lemma AppendedInRoom(lim: Limits, h: History, s: Text)
    requires |h.undo| < lim.records && CharsOf(h.undo) <= lim.chars
    ensures Splice(lim, h, Edit(|h.text|, s, 0)) == History(h.text + s, h.undo + [Edit(|h.text|, [], |s|)], [])
  {
    var e := Edit(|h.text|, s, 0);
    assert Apply(e, h.text) == h.text + s && Inverse(e, h.text) == Edit(|h.text|, [], |s|);
    hide Apply, Inverse, Recorded;
    RecordedInRoom(h.undo, Edit(|h.text|, [], |s|), lim);
  }

  // Where there is room for it, a record is added to those there are.
  lemma RecordedInRoom(undo: seq<Edit>, u: Edit, lim: Limits)
    requires |undo| < lim.records && CharsOf(undo) + |u.ins| <= lim.chars
    ensures Recorded(undo, u, lim) == undo + [u]
  {
  }

  lemma OneUndo(lim: Limits, s: Text, t: Text)
    requires 0 < |t| < lim.chars
    ensures var h := History(s + t, [Edit(0, [], |s|), Edit(|s|, [], |t|)], []);
            Legal(lim, h, DoUndo) && Undo(lim, h) == History(s, [Edit(0, [], |s|)], [Edit(|s|, t, 0)])
  {
    var undo := [Edit(0, [], |s|), Edit(|s|, [], |t|)];
    assert CharsOf(undo) == 0 by {
      FlatLast([Edit(0, [], |s|)], Edit(|s|, [], |t|));
      assert undo == [Edit(0, [], |s|)] + [Edit(|s|, [], |t|)] && CharsOf([Edit(0, [], |s|)]) == 0;
    }
    hide CharsOf;
    assert Apply(undo[1], s + t) == s;
    assert Inverse(undo[1], s + t) == Edit(|s|, t, 0);
    hide Apply, Inverse;
    assert undo[..1] == [Edit(0, [], |s|)];
  }
}
