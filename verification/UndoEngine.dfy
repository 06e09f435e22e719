// The undo engine over its two fixed arrays: undo records and characters grow up from the
// start, redo records and characters grow down from the end.
module UndoEngine {
  import opened EditHistory

  datatype Record = Record(where: nat, insertLength: nat, deleteLength: nat, charStorage: int)

  // A record with its characters at offset, or none.
  function RecordOf(e: Edit, offset: int): Record {
    Record(e.where, |e.ins|, e.del, if e.ins == [] then -1 else offset)
  }

  // The records rs stand for the edits es, whose characters lie in one stretch from base on.
  ghost predicate Spells(rs: seq<Record>, es: seq<Edit>, base: int) {
    && |rs| == |es|
    && forall i :: 0 <= i < |es| ==> rs[i] == RecordOf(es[i], base + CharsOf(es[..i]))
  }

  function Shifted(r: Record, n: int): Record {
    if r.charStorage >= 0 then r.(charStorage := r.charStorage + n) else r
  }

  function ShiftAll(rs: seq<Record>, n: int): seq<Record> {
    seq(|rs|, i requires 0 <= i < |rs| => Shifted(rs[i], n))
  }

  lemma RecordAt(rs: seq<Record>, es: seq<Edit>, base: int, i: nat)
    requires Spells(rs, es, base) && i < |es|
    ensures |rs| == |es| && rs[i] == RecordOf(es[i], base + CharsOf(es[..i]))
  {
  }

  // The oldest record apart from the others.
  lemma OldestApart(rs: seq<Record>, front: seq<Edit>, last: Edit, base: int)
    requires Spells(rs, front + [last], base)
    ensures |rs| == |front| + 1 && Spells(rs[..|front|], front, base)
    ensures rs[|front|] == RecordOf(last, base + CharsOf(front))
    ensures SameEdit(rs[0], RecordOf((front + [last])[0], 0))
  {
    hide CharsOf, Spells;
    var es, m := front + [last], |front|;
    assert es[..m] == front;
    SpellsLess(rs, es, base, m);
    RecordAt(rs, es, base, m);
    RecordAt(rs, es, base, 0);
  }


  // All characters but those of the last record.
  lemma FlatFront(cs: seq<int>, base: int, front: seq<Edit>, last: Edit)
    requires 0 <= base <= |cs| && cs[base..] == Flat(front + [last])
    ensures |last.ins| <= |cs| - base && cs[base..|cs| - |last.ins|] == Flat(front)
    ensures CharsOf(front + [last]) == CharsOf(front) + |last.ins|
  {
    hide Flat, CharsOf;
    FlatLast(front, last);
    FrontOf(cs, base, Flat(front), last.ins);
  }

  lemma FrontOf(cs: seq<int>, base: int, a: seq<int>, b: seq<int>)
    requires 0 <= base <= |cs| && cs[base..] == a + b
    ensures |b| <= |cs| - base && cs[base..|cs| - |b|] == a
  {
    assert |cs| - base == |a| + |b|;
    assert cs[base..|cs| - |b|] == cs[base..][..|a|];
  }

  // All characters but those of the first record.
  lemma FlatRest(cs: seq<int>, es: seq<Edit>)
    requires es != [] && CharsOf(es) <= |cs| && cs[..CharsOf(es)] == Flat(es)
    ensures CharsOf(es) == |es[0].ins| + CharsOf(es[1..]) && cs[|es[0].ins|..CharsOf(es)] == Flat(es[1..])
  {
    var n, m := |es[0].ins|, CharsOf(es);
    assert cs[n..m] == cs[..m][n..];
  }

  lemma ShiftAllRest(rs: seq<Record>, n: int)
    requires rs != []
    ensures ShiftAll(rs, n)[1..] == ShiftAll(rs[1..], n)
  {
  }

  lemma ShorterIsLess(es: seq<Edit>)
    requires es != []
    ensures CharsOf(es[..|es| - 1]) <= CharsOf(es)
  {
    hide CharsOf, Flat;
    var front, last := es[..|es| - 1], es[|es| - 1];
    FlatLast(front, last);
    assert es == front + [last];
  }

  lemma SpellsMore(rs: seq<Record>, es: seq<Edit>, base: int, e: Edit)
    requires Spells(rs, es, base)
    ensures Spells(rs + [RecordOf(e, base + CharsOf(es))], es + [e], base)
  {
    assert (es + [e])[..|es|] == es;
    assert forall i :: 0 <= i < |es| ==> (es + [e])[..i] == es[..i];
  }

  lemma SpellsLess(rs: seq<Record>, es: seq<Edit>, base: int, n: nat)
    requires Spells(rs, es, base) && n <= |es|
    ensures Spells(rs[..n], es[..n], base)
  {
    assert forall i :: 0 <= i < n ==> es[..n][..i] == es[..i];
  }

  lemma FlatFirst(e: Edit, es: seq<Edit>)
    ensures Flat([e] + es) == e.ins + Flat(es) && CharsOf([e] + es) == |e.ins| + CharsOf(es)
  {
    assert ([e] + es)[1..] == es;
  }

  lemma SpellsOnTop(rs: seq<Record>, es: seq<Edit>, base: int, e: Edit)
    requires Spells(rs, es, base)
    ensures Spells([RecordOf(e, base - |e.ins|)] + rs, [e] + es, base - |e.ins|)
  {
    forall i | 0 <= i < |es| + 1
      ensures ([RecordOf(e, base - |e.ins|)] + rs)[i]
           == RecordOf(([e] + es)[i], base - |e.ins| + CharsOf(([e] + es)[..i]))
    {
      if i > 0 {
        assert ([e] + es)[..i] == [e] + es[..i - 1];
        assert ([e] + es[..i - 1])[1..] == es[..i - 1];
      }
    }
  }

  // Without the first record the rest starts where the second one's characters are.
  lemma SpellsRest(rs: seq<Record>, es: seq<Edit>, base: int)
    requires Spells(rs, es, base) && es != []
    ensures Spells(rs[1..], es[1..], base + |es[0].ins|)
  {
    forall i | 0 <= i < |es| - 1
      ensures rs[1..][i] == RecordOf(es[1..][i], base + |es[0].ins| + CharsOf(es[1..][..i]))
    {
      assert es[..i + 1] == [es[0]] + es[1..][..i];
      assert ([es[0]] + es[1..][..i])[1..] == es[1..][..i];
    }
  }

  // Moving the characters moves the records' offsets.
  lemma SpellsShifted(rs: seq<Record>, es: seq<Edit>, base: int, n: int)
    requires Spells(rs, es, base) && 0 <= base && 0 <= base + n
    ensures Spells(ShiftAll(rs, n), es, base + n)
  {
  }

  // STB_TEXTEDIT_memmove on elements: the two stretches may overlap.
  method MemMove<T>(a: array<T>, dst: int, src: int, n: int)
    requires 0 <= n && 0 <= dst && dst + n <= a.Length && 0 <= src && src + n <= a.Length
    modifies a
    ensures a[dst..dst + n] == old(a[src..src + n])
    ensures a[..dst] == old(a[..dst]) && a[dst + n..] == old(a[dst + n..])
  {
    forall i | 0 <= i < n {
      a[dst + i] := a[src + i];
    }
  }

  lemma TwoParts<T>(c: seq<T>, p: int, q: int, a: seq<T>, b: seq<T>)
    requires 0 <= p <= q <= |c| && c[..p] == a && c[p..q] == b
    ensures c[..q] == a + b
  {
    assert c[..q] == c[..p] + c[p..q];
  }

  // Equal but for the place of the characters.
  predicate SameEdit(r: Record, r': Record) {
    r.where == r'.where && r.insertLength == r'.insertLength && r.deleteLength == r'.deleteLength
  }

  // The three cases an undo distinguishes, in terms of the record it undoes.
  lemma UndoCases(lim: Limits, h: History)
    requires h.undo != [] && Applies(h.undo[|h.undo| - 1], h.text)
    ensures var (u, used, kept) := (h.undo[|h.undo| - 1], CharsOf(h.undo), CharsOf(h.redo));
            && (u.del == 0 || used + u.del >= lim.chars ==>
                  !Forces(lim, h) && UndoneBy(lim, h) == Edit(u.where, [], |u.ins|))
            && (0 < u.del && used + u.del < lim.chars ==>
                  && (Forces(lim, h) <==> used + u.del > lim.chars - kept)
                  && UndoneBy(lim, h) == Cut(h.text, u.where, u.del, |u.ins|))
            && u.where + u.del <= |h.text|
  {
    hide CharsOf;
  }

  lemma RecordOfCut(t: Text, u: Record, offset: int)
    requires 0 < u.deleteLength && u.where + u.deleteLength <= |t|
    ensures RecordOf(Cut(t, u.where, u.deleteLength, u.insertLength), offset)
         == Record(u.where, u.deleteLength, u.insertLength, offset)
    ensures Cut(t, u.where, u.deleteLength, u.insertLength).ins == t[u.where..u.where + u.deleteLength]
  {
  }

  lemma CutTakes(t: Text, where: nat, n: nat, m: nat)
    requires where + n <= |t|
    ensures Cut(t, where, n, m).ins == t[where..where + n]
  {
  }

  lemma NoCharacters(where: nat, n: nat)
    ensures forall offset {:trigger RecordOf(Edit(where, [], n), offset)} ::
              RecordOf(Edit(where, [], n), offset) == Record(where, 0, n, -1)
  {
  }

  lemma RecordOfInverse(e: Edit, t: Text, offset: int)
    requires Applies(e, t)
    ensures var u := Inverse(e, t);
            && RecordOf(u, offset) == Record(e.where, e.del, |e.ins|, if e.del == 0 then -1 else offset)
            && u.ins == t[e.where..e.where + e.del] && |u.ins| == e.del
  {
  }

  class Editor {
    const recs: array<Record>   // undo_rec
    const chars: array<int>     // undo_char
    var undoPoint: int
    var redoPoint: int
    var undoCharPoint: int
    var redoCharPoint: int
    var text: Text              // the edited string
    var cursor: int

    // The edits the two ends of the arrays stand for.
    ghost var undo: seq<Edit>
    ghost var redo: seq<Edit>

    ghost function Lim(): Limits
    {
      Limits(recs.Length, chars.Length)
    }

    ghost function Hist(): History
      reads this`text, this`undo, this`redo
    {
      History(text, undo, redo)
    }

    ghost predicate UndoSide()
      reads this`undo, this`undoPoint, this`undoCharPoint, recs, chars
    {
      && undoPoint == |undo| <= recs.Length
      && undoCharPoint == CharsOf(undo) <= chars.Length
      && Spells(recs[..undoPoint], undo, 0)
      && chars[..undoCharPoint] == Flat(undo)
    }

    // The undo side, with the n characters of the last record still to be written.
    ghost predicate UndoSideBut(n: nat)
      reads this`undo, this`undoPoint, this`undoCharPoint, recs, chars
    {
      && undoPoint == |undo| <= recs.Length
      && undoCharPoint == CharsOf(undo) <= chars.Length
      && Spells(recs[..undoPoint], undo, 0)
      && n <= undoCharPoint && chars[..undoCharPoint - n] == Flat(undo)[..undoCharPoint - n]
    }

    ghost predicate RedoSide()
      reads this`redo, this`redoPoint, this`redoCharPoint, recs, chars
    {
      && redoPoint == recs.Length - |redo| && 0 <= redoPoint
      && redoCharPoint == chars.Length - CharsOf(redo) && 0 <= redoCharPoint
      && Spells(recs[redoPoint..], redo, redoCharPoint)
      && chars[redoCharPoint..] == Flat(redo)
    }

    ghost predicate Valid()
      reads this`text, this`undo, this`redo, this`undoPoint, this`undoCharPoint, this`redoPoint, this`redoCharPoint,
            recs, chars
    {
      && 1 <= recs.Length
      && UndoSide() && RedoSide()
      && Bounded(Lim(), Hist())
    }

    // stb_textedit_clear_state
    constructor (records: nat, characters: nat, text: Text)
      requires 1 <= records
      ensures Valid() && Hist() == History(text, [], []) && Lim() == Limits(records, characters)
      ensures fresh(recs) && fresh(chars)
    {
      recs := new Record[records](_ => Record(0, 0, 0, -1));
      chars := new int[characters](_ => 0);
      undoPoint, undoCharPoint := 0, 0;
      redoPoint, redoCharPoint := records, characters;
      this.text, cursor := text, 0;
      undo, redo := [], [];
    }

    // Nothing to redo: both redo points are at the ends.
    ghost predicate Flushed()
      reads this`redo, this`redoPoint, this`redoCharPoint
    {
      redo == [] && redoPoint == recs.Length && redoCharPoint == chars.Length
    }

    lemma FlushedIsRedoSide()
      requires Flushed()
      ensures RedoSide()
    {
    }

    // stb_textedit_flush_redo
    method FlushRedo()
      modifies this`redo, this`redoPoint, this`redoCharPoint
      ensures Flushed()
    {
      redoPoint := recs.Length;
      redoCharPoint := chars.Length;
      redo := [];
    }

    // The loops that follow a memmove of the characters.
    method ShiftStorage(lo: int, hi: int, n: int)
      requires 0 <= lo <= hi <= recs.Length
      modifies recs
      ensures recs[lo..hi] == ShiftAll(old(recs[lo..hi]), n)
      ensures recs[..lo] == old(recs[..lo]) && recs[hi..] == old(recs[hi..])
    {
      for i := lo to hi
        invariant forall k :: 0 <= k < recs.Length ==>
                    recs[k] == if lo <= k < i then Shifted(old(recs[k]), n) else old(recs[k])
      {
        if recs[i].charStorage >= 0 {
          recs[i] := recs[i].(charStorage := recs[i].charStorage + n);
        }
      }
    }

    // stb_textedit_discard_undo: the oldest undo record and its characters slide out.
    method DiscardUndo()
      requires UndoSide()
      modifies this`undo, this`undoPoint, this`undoCharPoint, recs, chars
      ensures UndoSide()
      ensures undo == if old(undo) == [] then [] else old(undo)[1..]
    {
      hide Spells, Flat, CharsOf, ShiftAll, Shifted;
      if undoPoint > 0 {
        ghost var rest := undo[1..];
        var n := ReleaseFirst(rest);
        undoPoint := undoPoint - 1;
        ghost var moved := recs[1..1 + undoPoint];
        MemMove(recs, 0, 1, undoPoint);
        assert recs[..undoPoint] == moved;
        undo := rest;
      }
    }

    // The part of it that concerns the characters.
    method ReleaseFirst(ghost rest: seq<Edit>) returns (n: int)
      requires UndoSide() && undo != [] && rest == undo[1..]
      modifies this`undoCharPoint, recs, chars
      ensures undoCharPoint == CharsOf(rest) <= chars.Length && chars[..undoCharPoint] == Flat(rest)
      ensures Spells(recs[1..undoPoint], rest, 0)
    {
      ghost var rs, es := recs[..undoPoint], undo;
      FlatRest(chars[..], es);
      hide Spells, Flat, CharsOf, ShiftAll;
      SpellsRest(rs, es, 0);
      RecordAt(rs, es, 0, 0);
      assert recs[0] == rs[0];
      n := ReleaseUndoChars();
      ShiftAllRest(rs, -n);
      assert recs[1..undoPoint] == recs[..undoPoint][1..];
      SpellsShifted(rs[1..], rest, n, -n);
    }

    // If the oldest undo record has characters, they go, and the records in use are re-based.
    method ReleaseUndoChars() returns (n: int)
      requires 0 < undoPoint <= recs.Length && undoCharPoint <= chars.Length
      requires recs[0].insertLength <= undoCharPoint
      modifies this`undoCharPoint, recs, chars
      ensures n == (if old(recs[0]).charStorage >= 0 then old(recs[0]).insertLength else 0)
      ensures undoCharPoint == old(undoCharPoint) - n
      ensures chars[..undoCharPoint] == old(chars[n..undoCharPoint])
      ensures recs[..undoPoint] == ShiftAll(old(recs[..undoPoint]), -n)
    {
      n := 0;
      if recs[0].charStorage >= 0 {
        n := recs[0].insertLength;
        undoCharPoint := undoCharPoint - n;
        MemMove(chars, 0, n, undoCharPoint);
        ShiftStorage(0, undoPoint, -n);
      }
    }

    // The loop of stb_text_create_undo_record.
    method DropUntilFits(numchars: nat)
      requires UndoSide() && numchars <= chars.Length
      modifies this`undo, this`undoPoint, this`undoCharPoint, recs, chars
      ensures UndoSide() && undo == DropFor(old(undo), numchars, chars.Length)
    {
      hide Spells, Flat;
      while undoCharPoint + numchars > chars.Length
        invariant UndoSide()
        invariant DropFor(undo, numchars, chars.Length) == DropFor(old(undo), numchars, chars.Length)
        decreases |undo|
      {
        DiscardUndo();
      }
    }

    // Nothing to undo any more.
    method ForgetUndo()
      modifies this`undo, this`undoPoint, this`undoCharPoint
      ensures UndoSide() && undo == []
    {
      undoPoint := 0;
      undoCharPoint := 0;
      undo := [];
    }

    // stb_text_create_undo_record: -1 stands for NULL. On success the slot at the returned index
    // is allotted but not yet filled.
    method CreateUndoRecord(numchars: nat) returns (r: int)
      requires UndoSide() && 1 <= recs.Length
      modifies this`undo, this`redo, this`undoPoint, this`undoCharPoint, this`redoPoint, this`redoCharPoint, recs, chars
      ensures Flushed()
      ensures numchars > chars.Length ==> r == -1 && undo == [] && UndoSide()
      ensures numchars <= chars.Length ==>
                && undo == DropFor(Room(old(undo), recs.Length), numchars, chars.Length)
                && r == |undo| < recs.Length && undoPoint == r + 1 && undoCharPoint == CharsOf(undo)
                && Spells(recs[..r], undo, 0) && chars[..undoCharPoint] == Flat(undo)
    {
      hide Spells, Flat, CharsOf, DropFor, UndoSide;
      UndoParts();
      FlushRedo();
      if undoPoint == recs.Length {
        DiscardUndo();
      }
      if numchars > chars.Length {
        ForgetUndo();
        return -1;
      }
      DropUntilFits(numchars);
      UndoParts();
      r := undoPoint;
      undoPoint := undoPoint + 1;
    }

    // stb_text_createundo: files the record for e, whose characters the caller has yet to write
    // at the returned offset (-1 stands for NULL).
    method CreateUndo(pos: nat, insertLen: nat, deleteLen: nat, ghost e: Edit) returns (p: int)
      requires UndoSide() && 1 <= recs.Length
      requires e.where == pos && |e.ins| == insertLen && e.del == deleteLen
      modifies this`undo, this`redo, this`undoPoint, this`undoCharPoint, this`redoPoint, this`redoCharPoint, recs, chars
      ensures Flushed()
      ensures undo == Recorded(old(undo), e, Lim())
      ensures p == -1 ==> UndoSide()
      ensures p != -1 ==>
                && undo != [] && undo[|undo| - 1] == e && UndoSideBut(insertLen) && p == undoCharPoint - insertLen
    {
      hide Spells, Flat, CharsOf, DropFor, Room;
      var r := CreateUndoRecord(insertLen);
      if r == -1 {
        return -1;
      }
      ghost var kept := undo;
      SpellsMore(recs[..r], kept, 0, e);
      FlatLast(kept, e);
      undo := kept + [e];
      if insertLen == 0 {
        recs[r] := Record(pos, insertLen, deleteLen, -1);
        p := -1;
      } else {
        recs[r] := Record(pos, insertLen, deleteLen, undoCharPoint);
        p := undoCharPoint;
        undoCharPoint := undoCharPoint + insertLen;
      }
      assert recs[..r + 1] == recs[..r] + [RecordOf(e, CharsOf(kept))];
    }

    // stb_text_makeundo_replace; deletion is the case newLength == 0.
    method MakeUndoReplace(where: nat, oldLength: nat, newLength: nat)
      requires UndoSide() && 1 <= recs.Length && where + oldLength <= |text|
      modifies this`undo, this`redo, this`undoPoint, this`undoCharPoint, this`redoPoint, this`redoCharPoint, recs, chars
      ensures UndoSide() && Flushed()
      ensures undo == Recorded(old(undo), Cut(text, where, oldLength, newLength), Lim())
    {
      ghost var e := Cut(text, where, oldLength, newLength);
      hide Spells, Flat, CharsOf, Recorded, UndoSide, UndoSideBut, Cut;
      var p := CreateUndo(where, oldLength, newLength, e);
      if p != -1 {
        KeepText(p, where, oldLength, newLength, e);
      }
    }

    // The copying loops: n characters of the text are kept at p.
    method CopyText(p: int, where: nat, n: nat)
      requires 0 <= p && p + n <= chars.Length && where + n <= |text|
      modifies chars
      ensures chars[p..p + n] == text[where..where + n]
      ensures chars[..p] == old(chars[..p]) && chars[p + n..] == old(chars[p + n..])
    {
      for i := 0 to n
        invariant chars[..p] == old(chars[..p]) && chars[p + n..] == old(chars[p + n..])
        invariant forall k :: p <= k < p + i ==> chars[k] == text[where + k - p]
      {
        chars[p + i] := text[where + i];
      }
    }

    method KeepText(p: int, where: nat, n: nat, ghost newLength: nat, ghost e: Edit)
      requires undo != [] && undo[|undo| - 1] == e && |e.ins| == n && UndoSideBut(n) && p == undoCharPoint - n
      requires where + n <= |text| && e == Cut(text, where, n, newLength)
      modifies chars
      ensures UndoSide()
    {
      hide *;
      CutTakes(text, where, n, newLength);
      ghost var rest := undo[..|undo| - 1];
      BeforeLast(e, rest, n);
      CopyText(p, where, n);
      TwoParts(chars[..], p, p + n, Flat(rest), e.ins);
      UndoWhole();
    }

    lemma BeforeLast(e: Edit, rest: seq<Edit>, n: nat)
      requires UndoSideBut(n) && undo == rest + [e] && |e.ins| == n
      ensures undoPoint == |undo| <= recs.Length && undoCharPoint == CharsOf(undo) <= chars.Length
      ensures Spells(recs[..undoPoint], undo, 0) && Flat(undo) == Flat(rest) + e.ins
      ensures undoCharPoint - n == CharsOf(rest) && chars[..undoCharPoint - n] == Flat(rest)
    {
      FlatLast(rest, e);
    }

    lemma UndoWhole()
      requires undoPoint == |undo| <= recs.Length && undoCharPoint == CharsOf(undo) <= chars.Length
      requires Spells(recs[..undoPoint], undo, 0) && chars[..undoCharPoint] == Flat(undo)
      ensures UndoSide()
    {
    }

    // The characters of the oldest redo record are overwritten by those of the others.
    method SlideRedoChars(n: int)
      requires 0 <= n && 0 <= redoCharPoint && redoCharPoint + n <= chars.Length
      modifies this`redoCharPoint, chars
      ensures redoCharPoint == old(redoCharPoint) + n
      ensures chars[redoCharPoint..] == old(chars[redoCharPoint..chars.Length - n])
      ensures chars[..old(redoCharPoint)] == old(chars[..redoCharPoint])
    {
      ghost var cs, p := chars[..], redoCharPoint;
      redoCharPoint := redoCharPoint + n;
      MemMove(chars, redoCharPoint, redoCharPoint - n, chars.Length - redoCharPoint);
      assert chars[redoCharPoint..] == chars[redoCharPoint..redoCharPoint + (chars.Length - redoCharPoint)];
      assert chars[..p] == chars[..redoCharPoint][..p] && cs[..p] == cs[..redoCharPoint][..p];
    }

    // If the oldest redo record has characters, they go, and the records in use are re-based.
    method ReleaseRedoChars() returns (n: int)
      requires 0 <= redoPoint < recs.Length && 0 <= redoCharPoint
      requires redoCharPoint + recs[recs.Length - 1].insertLength <= chars.Length
      modifies this`redoCharPoint, recs, chars
      ensures n == (if old(recs[recs.Length - 1]).charStorage >= 0 then old(recs[recs.Length - 1]).insertLength else 0)
      ensures redoCharPoint == old(redoCharPoint) + n
      ensures chars[redoCharPoint..] == old(chars[redoCharPoint..chars.Length - n])
      ensures chars[..old(redoCharPoint)] == old(chars[..redoCharPoint])
      ensures recs[redoPoint..recs.Length - 1] == ShiftAll(old(recs[redoPoint..recs.Length - 1]), n)
      ensures recs[..redoPoint] == old(recs[..redoPoint]) && SameEdit(recs[redoPoint], old(recs[redoPoint]))
    {
      var k := recs.Length - 1;
      n := 0;
      if recs[k].charStorage >= 0 {
        n := recs[k].insertLength;
        SlideRedoChars(n);
        ShiftStorage(redoPoint, k, n);
        assert recs[redoPoint] == (if redoPoint < k then recs[redoPoint..k][0] else recs[k..][0]);
      }
    }

    // stb_textedit_discard_redo: the oldest redo record and its characters go, and the others move
    // up; the slot the newest one leaves keeps a copy of it.
    method DiscardRedo()
      requires RedoSide()
      modifies this`redo, this`redoPoint, this`redoCharPoint, recs, chars
      ensures RedoSide()
      ensures redo == if old(redo) == [] then [] else old(redo)[..|old(redo)| - 1]
      ensures recs[..old(redoPoint)] == old(recs[..redoPoint]) &&
              chars[..old(redoCharPoint)] == old(chars[..redoCharPoint])
      ensures old(redo) != [] ==> SameEdit(recs[old(redoPoint)], RecordOf(old(redo)[0], 0))
    {
      hide Spells, Flat, CharsOf, ShiftAll, Shifted, RecordOf;
      var k := recs.Length - 1;
      if redoPoint <= k {
        ghost var front, last := redo[..|redo| - 1], redo[|redo| - 1];
        assert redo == front + [last];
        var n := ReleaseOldest(front, last);
        ghost var moved := recs[redoPoint..k];
        MemMove(recs, redoPoint + 1, redoPoint, k - redoPoint);
        assert recs[..redoPoint + 1][redoPoint] == recs[redoPoint];
        assert recs[redoPoint + 1..] == recs[redoPoint + 1..redoPoint + 1 + (k - redoPoint)];
        redoPoint := redoPoint + 1;
        assert recs[redoPoint..] == moved;
        redo := front;
      }
    }

    // The part of it that concerns the characters.
    method ReleaseOldest(ghost front: seq<Edit>, ghost last: Edit) returns (n: int)
      requires RedoSide() && redo == front + [last]
      modifies this`redoCharPoint, recs, chars
      ensures redoCharPoint == chars.Length - CharsOf(front) && 0 <= redoCharPoint &&
              chars[redoCharPoint..] == Flat(front)
      ensures chars[..old(redoCharPoint)] == old(chars[..redoCharPoint])
      ensures recs[..redoPoint] == old(recs[..redoPoint])
      ensures Spells(recs[redoPoint..recs.Length - 1], front, redoCharPoint)
      ensures SameEdit(recs[redoPoint], RecordOf(redo[0], 0))
    {
      hide Spells, Flat, CharsOf, ShiftAll;
      var k := recs.Length - 1;
      ghost var rs, m, base := recs[redoPoint..], |front|, redoCharPoint;
      OldestApart(rs, front, last, base);
      FlatFront(chars[..], base, front, last);
      assert recs[k] == rs[m] && recs[redoPoint] == rs[0] && recs[redoPoint..k] == rs[..m];
      n := ReleaseRedoChars();
      SpellsShifted(rs[..m], front, base, n);
    }

    // The loop of stb_text_undo that discards redo records until n characters fit. Its "should
    // never happen" exit is never taken: with nothing to redo all the room is free.
    method MakeRedoRoom(n: nat)
      requires RedoSide() && 0 <= undoCharPoint <= redoCharPoint && undoCharPoint + n <= chars.Length
      modifies this`redo, this`redoPoint, this`redoCharPoint, recs, chars
      ensures RedoSide() && undoCharPoint + n <= redoCharPoint
      ensures |redo| <= |old(redo)| && redo == old(redo)[..|redo|]
      ensures |redo| == |old(redo)| <==> undoCharPoint + n <= old(redoCharPoint)
      ensures |redo| < |old(redo)| ==> undoCharPoint + n > chars.Length - CharsOf(old(redo)[..|redo| + 1])
      ensures recs[..old(redoPoint)] == old(recs[..redoPoint]) && chars[..undoCharPoint] == old(chars[..undoCharPoint])
      ensures |redo| < |old(redo)| ==> redoPoint > 0 && SameEdit(recs[redoPoint - 1], RecordOf(old(redo)[0], 0))
    {
      hide Spells, Flat;
      ghost var rp, rcp, es, rs, cs := redoPoint, redoCharPoint, redo, recs[..redoPoint], chars[..redoCharPoint];
      while undoCharPoint + n > redoCharPoint
        invariant RedoSide() && rp <= redoPoint && rcp <= redoCharPoint
        invariant |redo| <= |es| && redo == es[..|redo|]
        invariant |redo| < |es| ==> undoCharPoint + n > chars.Length - CharsOf(es[..|redo| + 1])
        invariant |redo| == |es| ==> redoCharPoint == rcp
        invariant |redo| < |es| ==>
                    undoCharPoint + n > rcp && redoPoint > 0 && SameEdit(recs[redoPoint - 1], RecordOf(es[0], 0))
        invariant recs[..rp] == rs && chars[..rcp] == cs
        decreases |redo|
      {
        if redoPoint == recs.Length {
          assert false;
        }
        DiscardOne(rp, rs, rcp, cs);
      }
      assert chars[..undoCharPoint] == cs[..undoCharPoint];
    }

    // One turn of it, with what stays of the lower parts of the arrays.
    method DiscardOne(ghost rp: int, ghost rs: seq<Record>, ghost rcp: int, ghost cs: seq<int>)
      requires RedoSide() && redo != [] && 0 <= rp <= redoPoint && 0 <= rcp <= redoCharPoint
      requires recs[..rp] == rs && chars[..rcp] == cs
      modifies this`redo, this`redoPoint, this`redoCharPoint, recs, chars
      ensures RedoSide() && redo == old(redo)[..|old(redo)| - 1] && old(redoCharPoint) <= redoCharPoint
      ensures recs[..rp] == rs && chars[..rcp] == cs
      ensures SameEdit(recs[redoPoint - 1], RecordOf(old(redo)[0], 0))
    {
      hide Spells, Flat;
      ghost var below, under := recs[..redoPoint], chars[..redoCharPoint];
      assert below[..rp] == rs && under[..rcp] == cs;
      ShorterIsLess(redo);
      DiscardRedo();
    }

    // The slot and the characters below the redo side are r's: it becomes the next edit to redo.
    ghost method FileRedo(r: Edit)
      requires 0 <= redoPoint == recs.Length - |redo| - 1 &&
               0 <= redoCharPoint == chars.Length - CharsOf(redo) - |r.ins|
      requires Spells(recs[redoPoint + 1..], redo, redoCharPoint + |r.ins|)
      requires recs[redoPoint] == RecordOf(r, redoCharPoint)
      requires chars[redoCharPoint + |r.ins|..] == Flat(redo) && chars[redoCharPoint..redoCharPoint + |r.ins|] == r.ins
      modifies this`redo
      ensures RedoSide() && redo == [r] + old(redo)
    {
      hide *;
      SpellsOnTop(recs[redoPoint + 1..], redo, redoCharPoint + |r.ins|, r);
      FlatFirst(r, redo);
      TwoParts(chars[redoCharPoint..], |r.ins|, chars.Length - redoCharPoint, r.ins, Flat(redo));
      assert recs[redoPoint..] == [recs[redoPoint]] + recs[redoPoint + 1..];
      redo := [r] + redo;
      RedoWhole();
    }

    // The characters s are in place for the record in a slot right below the redo side.
    ghost predicate Filed(slot: int, s: seq<int>)
      reads this`redo, this`redoCharPoint, recs, chars
    {
      && 0 <= slot == recs.Length - |redo| - 1 && recs[slot].charStorage == redoCharPoint
      && 0 <= redoCharPoint == chars.Length - CharsOf(redo) - |s|
      && Spells(recs[slot + 1..], redo, redoCharPoint + |s|)
      && chars[redoCharPoint + |s|..] == Flat(redo) && chars[redoCharPoint..redoCharPoint + |s|] == s
    }

    // As many of the oldest redo records are gone as it takes to have n characters to spare.
    ghost predicate Shortened(redo0: seq<Edit>, n: nat)
      reads this`redo
    {
      && |redo| < |redo0| && redo == redo0[..|redo|]
      && CharsOf(redo) + n <= chars.Length < CharsOf(redo0[..|redo| + 1]) + n
    }

    // Room is made for the n characters at where, which are kept below the other redo characters,
    // and the top redo slot is told.
    method KeepDeleted(where: nat, n: nat)
      requires RedoSide() && 0 < redoPoint && 0 <= undoCharPoint <= redoCharPoint && undoCharPoint + n <= chars.Length
      requires where + n <= |text|
      modifies this`redo, this`redoPoint, this`redoCharPoint, recs, chars
      ensures chars[..undoCharPoint] == old(chars[..undoCharPoint]) &&
              recs[..old(redoPoint) - 1] == old(recs[..redoPoint - 1])
      ensures Filed(redoPoint - 1, text[where..where + n])
      ensures undoCharPoint + n <= old(redoCharPoint) ==>
                redo == old(redo) && SameEdit(recs[redoPoint - 1], old(recs[redoPoint - 1]))
      ensures undoCharPoint + n > old(redoCharPoint) ==>
                Shortened(old(redo), undoCharPoint + n) && SameEdit(recs[redoPoint - 1], RecordOf(old(redo)[0], 0))
    {
      hide Spells, Flat, CharsOf, RecordOf, RedoSide, Filed, Shortened;
      RedoParts();
      ghost var rs, cs, rp := recs[..redoPoint], chars[..undoCharPoint], redoPoint;
      if undoCharPoint + n > redoCharPoint {
        MakeRedoRoom(n);
        RedoParts();
        BecameShorter(old(redo), undoCharPoint + n);
      }
      assert recs[..rp] == rs && chars[..undoCharPoint] == cs && rp <= redoPoint;
      KeepAt(where, n);
      assert recs[..rp - 1] == recs[..redoPoint - 1][..rp - 1];
      assert chars[..undoCharPoint] == chars[..redoCharPoint][..undoCharPoint];
      assert rs[..rp - 1] == old(recs[..redoPoint - 1]);
    }

    lemma BecameShorter(redo0: seq<Edit>, n: nat)
      requires |redo| < |redo0| && redo == redo0[..|redo|]
      requires CharsOf(redo) + n <= chars.Length < CharsOf(redo0[..|redo| + 1]) + n
      ensures Shortened(redo0, n)
    {
    }

    // The characters and the slot, once there is room.
    method KeepAt(where: nat, n: nat)
      requires RedoSide() && 0 < redoPoint && 0 <= redoCharPoint - n && where + n <= |text|
      modifies this`redoCharPoint, recs, chars
      ensures redoCharPoint == old(redoCharPoint) - n && Filed(redoPoint - 1, text[where..where + n])
      ensures recs[..redoPoint - 1] == old(recs[..redoPoint - 1]) &&
              SameEdit(recs[redoPoint - 1], old(recs[redoPoint - 1]))
      ensures chars[..redoCharPoint] == old(chars[..redoCharPoint - n])
    {
      hide Spells, Flat, CharsOf;
      ghost var above := chars[redoCharPoint..];
      redoCharPoint := redoCharPoint - n;
      recs[redoPoint - 1] := recs[redoPoint - 1].(charStorage := redoCharPoint);
      CopyText(redoCharPoint, where, n);
      assert recs[redoPoint - 1 + 1..] == recs[redoPoint..];
    }

    // What stb_text_undo files for redoing, without touching the text: the three cases of room.
    method SaveForRedo(u: Record, ghost h: History)
      requires Valid() && h == Hist() && undo != [] && Applies(undo[|undo| - 1], text) && u == recs[undoPoint - 1]
      requires u.where + u.deleteLength <= |text|
      modifies this`redo, this`redoPoint, this`redoCharPoint, recs, chars
      ensures chars[..undoCharPoint] == old(chars[..undoCharPoint]) &&
              recs[..undoPoint - 1] == old(recs[..undoPoint - 1])
      ensures !Forces(Lim(), h) ==> RedoSide() && redo == [UndoneBy(Lim(), h)] + old(redo)
      ensures Forces(Lim(), h) ==> Mixed(old(redo), text[u.where..u.where + u.deleteLength], undoCharPoint)
    {
      hide *;
      ValidMeans(h);
      LastRecord(u);
      TopSlot();
      UndoCases(Lim(), h);
      NoCharacters(u.where, u.insertLength);
      RedoParts();
      recs[redoPoint - 1] := Record(u.where, u.deleteLength, u.insertLength, -1);
      if u.deleteLength == 0 {
        redoPoint := redoPoint - 1;
        FileRedo(UndoneBy(Lim(), h));
      } else if undoCharPoint + u.deleteLength >= chars.Length {
        recs[redoPoint - 1] := recs[redoPoint - 1].(insertLength := 0);
        redoPoint := redoPoint - 1;
        FileRedo(UndoneBy(Lim(), h));
      } else {
        assert recs[redoPoint..] == old(recs[redoPoint..]);
        RedoWhole();
        KeepForRedo(u, h);
      }
    }

    lemma RedoParts()
      requires RedoSide()
      ensures 0 <= redoPoint == recs.Length - |redo| && 0 <= redoCharPoint == chars.Length - CharsOf(redo)
      ensures Spells(recs[redoPoint..], redo, redoCharPoint) && chars[redoCharPoint..] == Flat(redo)
    {
    }

    lemma RedoWhole()
      requires 0 <= redoPoint == recs.Length - |redo| && 0 <= redoCharPoint == chars.Length - CharsOf(redo)
      requires Spells(recs[redoPoint..], redo, redoCharPoint) && chars[redoCharPoint..] == Flat(redo)
      ensures RedoSide()
    {
    }

    // The case with room, if need be after discarding redo records.
    method KeepForRedo(u: Record, ghost h: History)
      requires RedoSide() && 0 < redoPoint && 0 <= undoCharPoint <= redoCharPoint
      requires 0 < u.deleteLength && undoCharPoint + u.deleteLength < chars.Length
      requires u.where + u.deleteLength <= |text| && h.undo != [] && Applies(h.undo[|h.undo| - 1], text) &&
               h.text == text
      requires recs[redoPoint - 1] == Record(u.where, u.deleteLength, u.insertLength, -1)
      requires Forces(Lim(), h) <==> undoCharPoint + u.deleteLength > redoCharPoint
      requires !Forces(Lim(), h) ==> UndoneBy(Lim(), h) == Cut(text, u.where, u.deleteLength, u.insertLength)
      modifies this`redo, this`redoPoint, this`redoCharPoint, recs, chars
      ensures chars[..undoCharPoint] == old(chars[..undoCharPoint]) &&
              recs[..old(redoPoint) - 1] == old(recs[..redoPoint - 1])
      ensures !Forces(Lim(), h) ==> RedoSide() && redo == [UndoneBy(Lim(), h)] + old(redo)
      ensures Forces(Lim(), h) ==> Mixed(old(redo), text[u.where..u.where + u.deleteLength], undoCharPoint)
    {
      hide Spells, Flat, CharsOf, Applies, UndoneBy, Forces, RecordOf, Shortened;
      KeepDeleted(u.where, u.deleteLength);
      redoPoint := redoPoint - 1;
      if !Forces(Lim(), h) {
        RecordOfCut(text, u, redoCharPoint);
        FileRedo(UndoneBy(Lim(), h));
      }
    }

    // After a forced discard: the oldest redo records are gone, and the characters of the one filed
    // for the undo are in place; but its position and lengths are those of the record that was on
    // top before.
    ghost predicate Mixed(redo0: seq<Edit>, s: seq<int>, used: nat)
      reads this`redo, this`redoPoint, this`redoCharPoint, recs, chars
    {
      && Filed(redoPoint, s) && Shortened(redo0, used + |s|)
      && SameEdit(recs[redoPoint], RecordOf(redo0[0], 0))
    }

    // The record about to be undone.
    lemma LastRecord(u: Record)
      requires Valid() && undo != [] && u == recs[undoPoint - 1]
      ensures var e := undo[|undo| - 1];
              u.where == e.where && u.insertLength == |e.ins| && u.deleteLength == e.del
    {
      assert u == recs[..undoPoint][undoPoint - 1];
    }

    lemma TopSlot()
      requires Valid() && undo != []
      ensures 0 < undoPoint <= redoPoint && 0 <= undoCharPoint <= redoCharPoint <= chars.Length
      ensures undoCharPoint == CharsOf(undo) && RedoSide()
      ensures redoCharPoint == chars.Length - CharsOf(redo)
    {
    }

    // STB_TEXTEDIT_DELETECHARS and STB_TEXTEDIT_INSERTCHARS, the latter taken to succeed.
    method DeleteChars(where: nat, n: nat)
      requires where + n <= |text|
      modifies this`text
      ensures text == old(text)[..where] + old(text)[where + n..]
    {
      text := text[..where] + text[where + n..];
    }

    method InsertChars(where: nat, s: seq<int>)
      requires where <= |text|
      modifies this`text
      ensures text == old(text)[..where] + s + old(text)[where..]
    {
      text := text[..where] + s + text[where..];
    }

    // Both halves of applying a record e, with its characters at offset.
    method ApplyRecord(where: nat, deleteLength: nat, insertLength: nat, offset: int, ghost e: Edit)
      requires e.where == where && e.del == deleteLength && |e.ins| == insertLength && Applies(e, text)
      requires insertLength != 0 ==>
                 && 0 <= offset && offset + insertLength <= chars.Length
                 && chars[offset..offset + insertLength] == e.ins
      modifies this`text, this`cursor
      ensures text == Apply(e, old(text)) && cursor == where + insertLength
    {
      ghost var t := text;
      if deleteLength != 0 {
        DeleteChars(where, deleteLength);
      }
      if insertLength != 0 {
        InsertChars(where, chars[offset..offset + insertLength]);
      }
      assert text == t[..where] + e.ins + t[where + deleteLength..];
      cursor := where + insertLength;
    }

    // The text and the undo side, once the redo record is filed.
    method PopUndo(u: Record, ghost e: Edit, ghost rest: seq<Edit>)
      requires 0 < undoPoint == |rest| + 1 <= recs.Length &&
               0 <= undoCharPoint == CharsOf(rest) + |e.ins| <= chars.Length
      requires u.where == e.where && u.insertLength == |e.ins| && u.deleteLength == e.del && Applies(e, text)
      requires e.ins != [] ==> u.charStorage == CharsOf(rest)
      requires Spells(recs[..undoPoint - 1], rest, 0) && chars[..undoCharPoint] == Flat(rest) + e.ins
      modifies this`text, this`cursor, this`undo, this`undoPoint, this`undoCharPoint
      ensures UndoSide() && undo == rest && text == Apply(e, old(text)) && cursor == u.where + u.insertLength
    {
      hide Spells, Flat, CharsOf, Applies, Apply;
      ghost var cs, n := chars[..undoCharPoint], CharsOf(rest);
      assert chars[n..undoCharPoint] == cs[n..] && cs[..n] == chars[..n];
      ApplyRecord(u.where, u.deleteLength, u.insertLength, u.charStorage, e);
      if u.insertLength != 0 {
        undoCharPoint := undoCharPoint - u.insertLength;
      }
      undoPoint := undoPoint - 1;
      undo := rest;
    }

    // stb_text_undo is the undo of the history if and only if it has not got to discard redo records.
    // If it has, the text and the undo side come out the same, but the redo side does not: it gets
    // no longer, though a record was filed, so redoing leaves less to redo than there was before.
    method Undo()
      requires Valid() && (undo != [] ==> Applies(undo[|undo| - 1], text))
      modifies this`text, this`cursor, this`undo, this`undoPoint, this`undoCharPoint
      modifies this`redo, this`redoPoint, this`redoCharPoint, recs, chars
      ensures (Valid() && Hist() == EditHistory.Undo(Lim(), old(Hist()))) <==>
                old(undo) == [] || !Forces(Lim(), old(Hist()))
      ensures old(undo) != [] && Forces(Lim(), old(Hist())) ==>
                var u := old(undo)[|old(undo)| - 1];
                && text == Apply(u, old(text)) && undo == old(undo)[..|old(undo)| - 1] && UndoSide()
                && Mixed(old(redo), old(text)[u.where..u.where + u.del], CharsOf(old(undo)))
                && recs.Length - redoPoint <= |old(redo)|
      ensures old(undo) != [] ==> var u := old(undo)[|old(undo)| - 1]; cursor == u.where + |u.ins|
      ensures old(undo) == [] ==> cursor == old(cursor)
    {
      ghost var h := Hist();
      hide *;
      ValidMeans(h);
      NothingToUndo(h);
      if undoPoint == 0 {
        return;
      }
      FitsText(undo[|undo| - 1]);
      UndoLast(h);
      if Forces(Lim(), h) {
        ghost var u := h.undo[|h.undo| - 1];
        MixedIsNoStep(h, h.text[u.where..u.where + u.del], CharsOf(h.undo));
      } else {
        FiledIsStep(h);
      }
    }

    lemma NothingToUndo(h: History)
      requires UndoSide() && h == Hist()
      ensures undoPoint == 0 <==> h.undo == []
      ensures h.undo == [] ==> EditHistory.Undo(Lim(), h) == h
    {
    }

    method UndoLast(ghost h: History)
      requires Valid() && h == Hist() && undo != [] && Applies(undo[|undo| - 1], text)
      modifies this`text, this`cursor, this`undo, this`undoPoint, this`undoCharPoint
      modifies this`redo, this`redoPoint, this`redoCharPoint, recs, chars
      ensures text == Apply(h.undo[|h.undo| - 1], h.text) && undo == h.undo[..|h.undo| - 1] && UndoSide()
      ensures cursor == h.undo[|h.undo| - 1].where + |h.undo[|h.undo| - 1].ins|
      ensures !Forces(Lim(), h) ==> RedoSide() && redo == [UndoneBy(Lim(), h)] + h.redo
      ensures Forces(Lim(), h) ==>
                var u := h.undo[|h.undo| - 1];
                Mixed(h.redo, h.text[u.where..u.where + u.del], CharsOf(h.undo))
    {
      hide *;
      ghost var e, rest := undo[|undo| - 1], undo[..|undo| - 1];
      ValidMeans(h);
      TopSlot();
      var u := recs[undoPoint - 1];
      LastRecord(u);
      UndoBelow(recs[..undoPoint - 1], chars[..undoCharPoint], u);
      FitsText(e);
      SaveForRedo(u, h);
      PopUndo(u, e, rest);
    }

    lemma FiledIsStep(h: History)
      requires Bounded(Lim(), h) && h.undo != [] && Applies(h.undo[|h.undo| - 1], h.text) && !Forces(Lim(), h)
      requires text == Apply(h.undo[|h.undo| - 1], h.text) && undo == h.undo[..|h.undo| - 1] && UndoSide()
      requires redo == [UndoneBy(Lim(), h)] + h.redo && RedoSide() && 1 <= recs.Length
      ensures Valid() && Hist() == EditHistory.Undo(Lim(), h)
    {
      UndoKeepsBounded(Lim(), h);
      hide Bounded, UndoSide, RedoSide, Apply, UndoneBy;
    }

    lemma MixedIsNoStep(h: History, s: seq<int>, used: nat)
      requires h.undo != [] && Applies(h.undo[|h.undo| - 1], h.text) && Mixed(h.redo, s, used)
      ensures Hist() != EditHistory.Undo(Lim(), h) && recs.Length - redoPoint <= |h.redo|
    {
      assert |redo| < |h.redo|;
    }

    // What the undo side is made of.
    lemma UndoBelow(rs: seq<Record>, cs: seq<int>, u: Record)
      requires Valid() && undo != [] && rs == recs[..undoPoint - 1] && cs == chars[..undoCharPoint] &&
               u == recs[undoPoint - 1]
      ensures var (e, rest) := (undo[|undo| - 1], undo[..|undo| - 1]);
              && 0 < undoPoint == |rest| + 1 <= recs.Length &&
                 0 <= undoCharPoint == CharsOf(rest) + |e.ins| <= chars.Length
              && Spells(rs, rest, 0) && cs == Flat(rest) + e.ins && (e.ins != [] ==> u.charStorage == CharsOf(rest))
    {
      var e, rest := undo[|undo| - 1], undo[..|undo| - 1];
      assert undo == rest + [e];
      FlatLast(rest, e);
      hide Spells, Flat, CharsOf;
      SpellsLess(recs[..undoPoint], undo, 0, |rest|);
      assert rs == recs[..undoPoint][..|rest|];
      RecordAt(recs[..undoPoint], undo, 0, |rest|);
      assert u == recs[..undoPoint][|rest|];
    }

    // n characters at where are kept above the other undo characters.
    method KeepRedeleted(where: nat, n: nat)
      requires 0 <= undoCharPoint && undoCharPoint + n <= redoCharPoint <= chars.Length && where + n <= |text|
      modifies this`undoCharPoint, chars
      ensures undoCharPoint == old(undoCharPoint) + n
      ensures chars[..undoCharPoint] == old(chars[..undoCharPoint]) + text[where..where + n]
      ensures chars[redoCharPoint..] == old(chars[redoCharPoint..])
    {
      ghost var above, p := chars[undoCharPoint + n..], redoCharPoint - undoCharPoint - n;
      assert above[p..] == chars[redoCharPoint..];
      undoCharPoint := undoCharPoint + n;
      CopyText(undoCharPoint - n, where, n);
      assert chars[redoCharPoint..] == chars[undoCharPoint..][p..];
      TwoParts(chars[..], undoCharPoint - n, undoCharPoint, old(chars[..undoCharPoint]), text[where..where + n]);
    }

    // What stb_text_redo files for undoing again. There is always room for the characters, so the
    // branch that would file an empty record is never taken.
    method SaveForUndo(r: Record, ghost e: Edit)
      requires UndoSide() && undoPoint < recs.Length && CharsOf(undo) + e.del <= redoCharPoint <= chars.Length
      requires r.where == e.where && r.insertLength == |e.ins| && r.deleteLength == e.del && Applies(e, text)
      modifies this`undo, this`undoPoint, this`undoCharPoint, recs, chars
      ensures UndoSide() && undo == old(undo) + [Inverse(e, text)]
      ensures recs[old(undoPoint) + 1..] == old(recs[undoPoint + 1..]) &&
              chars[redoCharPoint..] == old(chars[redoCharPoint..])
    {
      hide *;
      UndoParts();
      FitsText(e);
      RecordOfInverse(e, text, undoCharPoint);
      ghost var u, rs, was := Inverse(e, text), recs[..undoPoint], Flat(undo);
      recs[undoPoint] := Record(r.where, r.deleteLength, r.insertLength, -1);
      if r.deleteLength != 0 {
        if undoCharPoint + r.deleteLength > redoCharPoint {
          assert false;
        } else {
          recs[undoPoint] := recs[undoPoint].(charStorage := undoCharPoint);
          KeepRedeleted(r.where, r.deleteLength);
        }
      }
      assert u.ins == [] ==> was + u.ins == was;
      assert recs[..undoPoint + 1] == rs + [recs[undoPoint]];
      undoPoint := undoPoint + 1;
      FileUndo(u, rs);
    }

    lemma UndoParts()
      requires UndoSide()
      ensures undoPoint == |undo| <= recs.Length && undoCharPoint == CharsOf(undo) <= chars.Length
      ensures Spells(recs[..undoPoint], undo, 0) && chars[..undoCharPoint] == Flat(undo)
    {
    }

    // The last slot and the last characters of the undo side are u's.
    ghost method FileUndo(u: Edit, rs: seq<Record>)
      requires undoPoint == |undo| + 1 <= recs.Length && undoCharPoint == CharsOf(undo) + |u.ins| <= chars.Length
      requires Spells(rs, undo, 0) && recs[..undoPoint] == rs + [RecordOf(u, CharsOf(undo))]
      requires chars[..undoCharPoint] == Flat(undo) + u.ins
      modifies this`undo
      ensures UndoSide() && undo == old(undo) + [u]
    {
      hide *;
      SpellsMore(rs, undo, 0, u);
      FlatLast(undo, u);
      undo := undo + [u];
      UndoWhole();
    }

    // The first redo record and its characters are used up.
    method PopRedo(r: Record, ghost e: Edit, ghost rest: seq<Edit>)
      requires 0 <= redoPoint < recs.Length && redoPoint == recs.Length - |rest| - 1
      requires 0 <= redoCharPoint == chars.Length - CharsOf(rest) - |e.ins|
      requires r.where == e.where && r.insertLength == |e.ins| && r.deleteLength == e.del && Applies(e, text)
      requires e.ins != [] ==> r.charStorage == redoCharPoint
      requires Spells(recs[redoPoint + 1..], rest, redoCharPoint + |e.ins|) &&
               chars[redoCharPoint..] == e.ins + Flat(rest)
      modifies this`text, this`cursor, this`redo, this`redoPoint, this`redoCharPoint
      ensures RedoSide() && redo == rest && text == Apply(e, old(text)) && cursor == r.where + r.insertLength
    {
      hide Spells, Flat, CharsOf, Applies, Apply;
      ghost var cs, n := chars[redoCharPoint..], redoCharPoint + |e.ins|;
      assert chars[redoCharPoint..n] == cs[..|e.ins|] && chars[n..] == cs[|e.ins|..];
      ApplyRecord(r.where, r.deleteLength, r.insertLength, r.charStorage, e);
      if r.insertLength != 0 {
        redoCharPoint := redoCharPoint + r.insertLength;
      }
      redoPoint := redoPoint + 1;
      redo := rest;
    }

    // stb_text_redo. A false result stands for a record that lies beyond the text, as may be left
    // after dropped characters: STB_TEXTEDIT_INSERTCHARS asserts that none does.
    method Redo() returns (inside: bool)
      requires Valid()
      modifies this`text, this`cursor, this`undo, this`redo, this`undoPoint, this`redoPoint, this`undoCharPoint,
               this`redoCharPoint, recs, chars
      ensures Valid() && (inside <==> old(redo) == [] || Applies(old(redo[0]), old(text)))
      ensures inside ==> Hist() == EditHistory.Redo(old(Hist()))
      ensures !inside ==> Hist() == old(Hist())
      ensures cursor == if old(redo) == [] || !inside then old(cursor) else old(redo[0].where + |redo[0].ins|)
    {
      ghost var h := Hist();
      hide *;
      NothingToRedo(h);
      if redoPoint == recs.Length {
        return true;
      }
      var r := recs[redoPoint];
      FirstRecord(r);
      FitsText(redo[0]);
      inside := r.where + r.deleteLength <= |text|;
      if inside {
        RedoFirst(h);
      }
    }

    lemma NothingToRedo(h: History)
      requires Valid() && h == Hist()
      ensures 0 <= redoPoint && (redoPoint == recs.Length <==> redo == []) && redoPoint <= recs.Length
      ensures h.redo == redo && h.text == text && (redo == [] ==> EditHistory.Redo(h) == h)
    {
    }

    lemma FirstRecord(r: Record)
      requires Valid() && redo != [] && 0 <= redoPoint < recs.Length && r == recs[redoPoint]
      ensures r.where == redo[0].where && r.insertLength == |redo[0].ins| && r.deleteLength == redo[0].del
    {
      RedoAbove(recs[redoPoint + 1..], chars[redoCharPoint..], r);
    }

    method RedoFirst(ghost h: History)
      requires Valid() && h == Hist() && redo != [] && Applies(redo[0], text)
      modifies this`text, this`cursor, this`undo, this`redo, this`undoPoint, this`redoPoint, this`undoCharPoint,
               this`redoCharPoint, recs, chars
      ensures Valid() && Hist() == EditHistory.Redo(h) && cursor == h.redo[0].where + |h.redo[0].ins|
    {
      hide *;
      ghost var e, rest := redo[0], redo[1..];
      ValidMeans(h);
      RedoRoomBelow(e, rest);
      var r := recs[redoPoint];
      RedoAbove(recs[redoPoint + 1..], chars[redoCharPoint..], r);
      ghost var rs := recs[redoPoint + 1..];
      SaveForUndo(r, e);
      assert recs[redoPoint + 1..] == rs;
      PopRedo(r, e, rest);
      RedoneIsStep(h);
    }

    lemma RedoRoomBelow(e: Edit, rest: seq<Edit>)
      requires Valid() && redo != [] && e == redo[0] && rest == redo[1..]
      ensures undoPoint <= redoPoint && 0 <= redoPoint < recs.Length && 0 <= redoCharPoint <= chars.Length
      ensures CharsOf(undo) + e.del <= redoCharPoint
    {
      NextRedoHasRoom(Lim(), Hist());
    }

    lemma RedoneIsStep(h: History)
      requires Bounded(Lim(), h) && h.redo != [] && Applies(h.redo[0], h.text) && 1 <= recs.Length
      requires text == Apply(h.redo[0], h.text) && undo == h.undo + [Inverse(h.redo[0], h.text)]
      requires redo == h.redo[1..] && UndoSide() && RedoSide()
      ensures Valid() && Hist() == EditHistory.Redo(h)
    {
      RedoKeepsBounded(Lim(), h);
      hide Bounded, UndoSide, RedoSide, Apply, Inverse;
    }

    // What the redo side is made of.
    lemma RedoAbove(rs: seq<Record>, cs: seq<int>, r: Record)
      requires Valid() && redo != [] && rs == recs[redoPoint + 1..] && cs == chars[redoCharPoint..] &&
               r == recs[redoPoint]
      ensures var (e, rest) := (redo[0], redo[1..]);
              && redoPoint == recs.Length - |rest| - 1 && 0 <= redoCharPoint == chars.Length - CharsOf(rest) - |e.ins|
              && undoPoint <= redoPoint && CharsOf(redo) == |e.ins| + CharsOf(rest)
              && r.where == e.where && r.insertLength == |e.ins| && r.deleteLength == e.del
              && Spells(rs, rest, redoCharPoint + |e.ins|) && cs == e.ins + Flat(rest) &&
                 (e.ins != [] ==> r.charStorage == redoCharPoint)
    {
      var all := recs[redoPoint..];
      assert r == all[0] && rs == all[1..];
      assert redo[..0] == [];
      SpellsRest(all, redo, redoCharPoint);
      RecordAt(all, redo, redoCharPoint, 0);
    }

    // --- The recorded edits ----------------------------------------------------------

    // A changed text and a record of the change make a step of the history.
    lemma EditIsSplice(h: History, e: Edit)
      requires Applies(e, h.text) && Bounded(Lim(), h) && 1 <= recs.Length
      requires text == h.text[..e.where] + e.ins + h.text[e.where + e.del..]
      requires undo == Recorded(h.undo, Cut(h.text, e.where, e.del, |e.ins|), Lim()) && UndoSide() && Flushed()
      ensures Valid() && Hist() == Splice(Lim(), h, e)
    {
      hide Bounded, Recorded, Cut, UndoSide, RedoSide;
      SpliceKeepsBounded(Lim(), h, e);
      FlushedIsRedoSide();
    }

    lemma ValidMeans(h: History)
      requires Valid() && h == Hist()
      ensures UndoSide() && Bounded(Lim(), h) && 1 <= recs.Length && h == History(text, undo, redo)
      ensures Lim() == Limits(recs.Length, chars.Length)
    {
    }

    lemma FitsText(e: Edit)
      ensures Applies(e, text) <==> e.where + e.del <= |text|
    {
    }

    lemma InsertionRecord(where: nat, n: nat)
      requires where <= |text|
      ensures Cut(text, where, 0, n) == Edit(where, [], n)
    {
    }

    // stb_textedit_delete: the characters are recorded, then deleted.
    method Delete(where: nat, len: nat)
      requires Valid() && where + len <= |text|
      modifies this`text, this`undo, this`redo, this`undoPoint, this`redoPoint, this`undoCharPoint,
               this`redoCharPoint, recs, chars
      ensures Valid() && Hist() == Splice(Lim(), old(Hist()), Edit(where, [], len))
      ensures text == old(text[..where] + text[where + len..])
    {
      hide *;
      ghost var h, e := Hist(), Edit(where, [], len);
      ValidMeans(h);
      FitsText(e);
      MakeUndoReplace(where, len, 0);
      DeleteChars(where, len);
      assert h.text[..where] + [] == h.text[..where];
      EditIsSplice(h, e);
    }

    // Typing or pasting: the characters are inserted, then the insertion is recorded.
    method Insert(where: nat, s: seq<int>)
      requires Valid() && where <= |text|
      modifies this`text, this`undo, this`redo, this`undoPoint, this`redoPoint, this`undoCharPoint,
               this`redoCharPoint, recs, chars
      ensures Valid() && Hist() == Splice(Lim(), old(Hist()), Edit(where, s, 0))
      ensures text == old(text[..where] + s + text[where..])
    {
      hide *;
      ghost var h, e := Hist(), Edit(where, s, 0);
      ValidMeans(h);
      FitsText(e);
      InsertionRecord(where, |s|);
      InsertChars(where, s);
      var _ := CreateUndo(where, 0, |s|, Edit(where, [], |s|));
      SideOfNothing();
      EditIsSplice(h, e);
    }

    lemma SideOfNothing()
      ensures UndoSideBut(0) ==> UndoSide()
    {
    }

    // Overtyping and stb_textedit_replace: one record for the deletion and the insertion.
    method Replace(where: nat, oldLength: nat, s: seq<int>)
      requires Valid() && where + oldLength <= |text|
      modifies this`text, this`undo, this`redo, this`undoPoint, this`redoPoint, this`undoCharPoint,
               this`redoCharPoint, recs, chars
      ensures Valid() && Hist() == Splice(Lim(), old(Hist()), Edit(where, s, oldLength))
      ensures text == old(text[..where] + s + text[where + oldLength..])
    {
      hide *;
      ghost var h, e := Hist(), Edit(where, s, oldLength);
      ValidMeans(h);
      FitsText(e);
      MakeUndoReplace(where, oldLength, |s|);
      DeleteChars(where, oldLength);
      InsertChars(where, s);
      Respliced(h.text, where, oldLength, s);
      EditIsSplice(h, e);
    }
  }

  lemma Respliced(t: Text, where: nat, n: nat, s: Text)
    requires where + n <= |t|
    ensures var d := t[..where] + t[where + n..];
            d[..where] + s + d[where..] == t[..where] + s + t[where + n..]
  {
    var d := t[..where] + t[where + n..];
    assert d[..where] == t[..where] && d[where..] == t[where + n..];
  }
}
