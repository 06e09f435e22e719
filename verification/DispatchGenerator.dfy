// The generator of the jump table as a transformation of a source file: taking an old table out,
// finding the cascade, and writing a new table in.
module DispatchGenerator {
  import opened Common
  import opened Dispatch

  datatype Result<T> = Ok(value: T) | Err(error: Error)

  datatype Error = NoEndMark | NoStep | NoFunctionAfter | NoMark | NoTail | Unexpected(line: int) | OpenBlock(line: int)

  // A line of the file as the generator sees it; delta counts its opening less its closing braces.
  datatype Line =
    | Begin                             // the line that opens a generated table
    | EndMark                           // the line in front of the cascade
    | Label(block: int)                 // dsp_N:
    | Case(ops: seq<int>)               // part of a case list in the table
    | CaseGoto(ops: seq<int>, to: int)  // the end of a case list, with its jump; -1 is the tail
    | Banner                            // any other line of the table
    | StepHead                          // where step() begins
    | FunctionHead                      // where another member function begins
    | TailLabel                         // unhandled:
    | Head(cond: Cond, delta: int)      // an if at cascade level
    | Blank(text: string, delta: int)   // nothing but white space or a comment
    | Code(text: string, delta: int)

  function Delta(l: Line): int {
    match l
    case Head(_, delta) => delta
    case Blank(_, delta) => delta
    case Code(_, delta) => delta
    case StepHead => 1
    case FunctionHead => 1
    case _ => 0
  }

  // --- Taking an old table out -----------------------------------------------------

  // The first end mark from i on, or the length of the file.
  function NextMark(src: seq<Line>, i: int): (j: int)
    requires 0 <= i <= |src|
    ensures i <= j <= |src| && (j < |src| ==> src[j] == EndMark) && forall k :: i <= k < j ==> src[k] != EndMark
    decreases |src| - i
  {
    if i == |src| || src[i] == EndMark then i else NextMark(src, i + 1)
  }

  function Strip(src: seq<Line>, i: int): Result<seq<Line>>
    requires 0 <= i <= |src|
    decreases |src| - i
  {
    if i == |src| then Ok([])
    else if src[i] == Begin then
      var j := NextMark(src, i);
      if j == |src| then Err(NoEndMark) else Strip(src, j)
    else
      match Strip(src, i + 1)
      case Err(e) => Err(e)
      case Ok(rest) => Ok(if src[i].Label? then rest else [src[i]] + rest)
  }

  function Put(out: seq<Line>, r: Result<seq<Line>>): Result<seq<Line>> {
    if r.Ok? then Ok(out + r.value) else r
  }

  lemma PutNothing(r: Result<seq<Line>>)
    ensures Put([], r) == r
  {
    assert r.Ok? ==> [] + r.value == r.value;
  }

  lemma StripOne(src: seq<Line>, i: int, out: seq<Line>)
    requires 0 <= i < |src| && src[i] != Begin
    ensures Put(out, Strip(src, i)) == Put(if src[i].Label? then out else out + [src[i]], Strip(src, i + 1))
  {
    var r := Strip(src, i + 1);
    if r.Ok? {
      assert out + ([src[i]] + r.value) == out + [src[i]] + r.value;
    }
  }

  method StripGenerated(src: seq<Line>) returns (r: Result<seq<Line>>)
    ensures r == Strip(src, 0)
  {
    var out := [];
    var i := 0;
    PutNothing(Strip(src, 0));
    while i < |src|
      invariant 0 <= i <= |src|
      invariant Strip(src, 0) == Put(out, Strip(src, i))
    {
      var line := src[i];
      if line == Begin {
        i := SkipTable(src, i);
        if i == |src| {
          return Err(NoEndMark);
        }
      } else {
        StripOne(src, i, out);
        hide Strip, Put;
        if !line.Label? {
          out := out + [line];
        }
        i := i + 1;
      }
    }
    assert out + [] == out;
    return Ok(out);
  }

  // Over the lines of a table, as far as the end mark; past the end of the file if there is none.
  method SkipTable(src: seq<Line>, start: int) returns (i: int)
    requires 0 <= start < |src|
    ensures i == NextMark(src, start)
  {
    i := start;
    while i < |src| && src[i] != EndMark
      invariant start <= i <= |src| && NextMark(src, start) == NextMark(src, i)
    {
      i := i + 1;
    }
  }

  // A file with nothing generated in it.
  ghost predicate Clean(src: seq<Line>) {
    forall k :: 0 <= k < |src| ==> src[k] != Begin && !src[k].Label?
  }

  lemma {:induction false} StripIsClean(src: seq<Line>, i: int)
    requires 0 <= i <= |src|
    ensures Strip(src, i).Ok? ==> Clean(Strip(src, i).value)
    decreases |src| - i
  {
    if i < |src| {
      if src[i] == Begin {
        var j := NextMark(src, i);
        if j < |src| {
          StripIsClean(src, j);
        }
      } else {
        StripIsClean(src, i + 1);
      }
    }
  }

  lemma {:induction false} StripLeavesClean(src: seq<Line>, i: int)
    requires 0 <= i <= |src| && Clean(src)
    ensures Strip(src, i) == Ok(src[i..])
    decreases |src| - i
  {
    if i < |src| {
      StripLeavesClean(src, i + 1);
      assert src[i..] == [src[i]] + src[i + 1..];
    }
  }

  // Lines in front that are clean stay in front.
  lemma {:induction false} StripAfterClean(front: seq<Line>, rest: seq<Line>, i: int)
    requires 0 <= i <= |front| && Clean(front)
    ensures Strip(front + rest, i) == Put(front[i..], Strip(rest, 0))
    decreases |front| - i
  {
    var src := front + rest;
    if i < |front| {
      StripAfterClean(front, rest, i + 1);
      assert front[i..] == [front[i]] + front[i + 1..];
      if Strip(rest, 0).Ok? {
        assert [front[i]] + (front[i + 1..] + Strip(rest, 0).value) == front[i..] + Strip(rest, 0).value;
      }
    } else {
      StripFromTail(front, rest, 0);
      assert front[i..] == [];
      if Strip(rest, 0).Ok? {
        assert [] + Strip(rest, 0).value == Strip(rest, 0).value;
      }
    }
  }

  lemma {:induction false} MarkInTail(front: seq<Line>, rest: seq<Line>, i: int)
    requires 0 <= i <= |rest|
    ensures NextMark(front + rest, |front| + i) == |front| + NextMark(rest, i)
    decreases |rest| - i
  {
    if i < |rest| && rest[i] != EndMark {
      MarkInTail(front, rest, i + 1);
    }
  }

  lemma {:induction false} StripFromTail(front: seq<Line>, rest: seq<Line>, i: int)
    requires 0 <= i <= |rest|
    ensures Strip(front + rest, |front| + i) == Strip(rest, i)
    decreases |rest| - i
  {
    var src := front + rest;
    if i < |rest| {
      assert src[|front| + i] == rest[i];
      if rest[i] == Begin {
        MarkInTail(front, rest, i);
        var j := NextMark(rest, i);
        if j < |rest| {
          assert j != i;
          StripFromTail(front, rest, j);
        }
      } else {
        StripFromTail(front, rest, i + 1);
      }
    }
  }

  // Whatever stands between the line that opens a table and the end mark goes, generated or not:
  // a block written there by hand does not survive.
  lemma StripDropsTable(front: seq<Line>, table: seq<Line>, rest: seq<Line>)
    requires Clean(front) && EndMark !in table && rest != [] && rest[0] == EndMark
    ensures Strip(front + [Begin] + table + rest, 0) == Put(front, Strip(rest, 0))
  {
    var tail := [Begin] + table + rest;
    assert front + [Begin] + table + rest == front + tail;
    StripAfterClean(front, tail, 0);
    assert front[0..] == front;
    var dropped := [Begin] + table;
    assert tail == dropped + rest;
    var j := NextMark(tail, 0);
    assert tail[|dropped|] == EndMark;
    assert j == |dropped| by {
      assert forall k :: 0 <= k < |dropped| ==> tail[k] == dropped[k] && tail[k] != EndMark;
    }
    StripFromTail(dropped, rest, 0);
    assert tail[0] == Begin;
  }

  // --- Finding the cascade ---------------------------------------------------------

  datatype Found = Found(line: int, cond: Cond)

  // The last line of a block that is d braces deep after line j, or the length of the file.
  function BlockEnd(src: seq<Line>, j: int, d: int): (e: int)
    requires 0 <= j < |src|
    ensures j <= e <= |src|
    decreases |src| - j
  {
    if d <= 0 then j
    else if j + 1 == |src| then |src|
    else BlockEnd(src, j + 1, d + Delta(src[j + 1]))
  }

  function Scan(src: seq<Line>, i: int, tail: int): Result<seq<Found>>
    requires 0 <= i <= |src| && tail <= |src|
    decreases |src| - i
  {
    if i >= tail then Ok([])
    else if src[i].Head? then
      var j := BlockEnd(src, i, src[i].delta);
      if j == |src| then Err(OpenBlock(i))
      else
        match Scan(src, j + 1, tail)
        case Err(e) => Err(e)
        case Ok(rest) => Ok([Found(i, src[i].cond)] + rest)
    else if src[i].Blank? then Scan(src, i + 1, tail)
    else Err(Unexpected(i))
  }

  function PutFound(out: seq<Found>, r: Result<seq<Found>>): Result<seq<Found>> {
    if r.Ok? then Ok(out + r.value) else r
  }

  method CollectBlocks(src: seq<Line>, mark: int, tail: int) returns (r: Result<seq<Found>>)
    requires 0 <= mark < |src| && tail <= |src|
    ensures r == Scan(src, mark + 1, tail)
  {
    var blocks := [];
    var i := mark + 1;
    ghost var all := Scan(src, i, tail);
    assert PutFound([], all) == all by {
      assert all.Ok? ==> [] + all.value == all.value;
    }
    while i < tail
      invariant 0 <= i <= |src|
      invariant all == PutFound(blocks, Scan(src, i, tail))
      decreases |src| - i
    {
      if src[i].Head? {
        var j := i;
        var d := src[i].delta;
        while d > 0
          invariant i <= j < |src| && BlockEnd(src, j, d) == BlockEnd(src, i, src[i].delta)
          decreases |src| - j
        {
          j := j + 1;
          if j == |src| {
            return Err(OpenBlock(i));
          }
          d := d + Delta(src[j]);
        }
        ghost var rest := Scan(src, j + 1, tail);
        if rest.Ok? {
          assert blocks + ([Found(i, src[i].cond)] + rest.value) == blocks + [Found(i, src[i].cond)] + rest.value;
        }
        blocks := blocks + [Found(i, src[i].cond)];
        i := j + 1;
      } else if src[i].Blank? {
        i := i + 1;
      } else {
        return Err(Unexpected(i));
      }
    }
    assert blocks + [] == blocks;
    return Ok(blocks);
  }

  // The blocks found are heads of the cascade, in order.
  lemma {:induction false} ScanFindsHeads(src: seq<Line>, i: int, tail: int)
    requires 0 <= i <= |src| && tail <= |src| && Scan(src, i, tail).Ok?
    ensures var fs := Scan(src, i, tail).value;
            && (forall t :: 0 <= t < |fs| ==>
                  i <= fs[t].line < tail && src[fs[t].line].Head? && src[fs[t].line].cond == fs[t].cond)
            && (forall t, u :: 0 <= t < u < |fs| ==> fs[t].line < fs[u].line)
    decreases |src| - i
  {
    if i < tail {
      if src[i].Head? {
        var j := BlockEnd(src, i, src[i].delta);
        ScanFindsHeads(src, j + 1, tail);
        var rest := Scan(src, j + 1, tail).value;
        var fs := Scan(src, i, tail).value;
        assert fs == [Found(i, src[i].cond)] + rest;
      } else {
        ScanFindsHeads(src, i + 1, tail);
      }
    }
  }

  // --- What a cascade is -------------------------------------------------------------

  // A cascade is made of blank lines and of blocks: a head and the lines up to the one that closes it.
  datatype Piece = Gap(line: Line) | Whole(cond: Cond, delta: int, body: seq<Line>)

  // How many braces are open after the first k lines of a body, d of them before it.
  function Depth(d: int, body: seq<Line>, k: int): int
    requires 0 <= k <= |body|
    decreases k
  {
    if k == 0 then d else Depth(d, body, k - 1) + Delta(body[k - 1])
  }

  ghost predicate Formed(p: Piece) {
    match p
    case Gap(line) => line.Blank?
    case Whole(_, delta, body) =>
      Depth(delta, body, |body|) <= 0 && forall k :: 0 <= k < |body| ==> Depth(delta, body, k) > 0
  }

  ghost predicate AllFormed(ps: seq<Piece>) {
    forall k :: 0 <= k < |ps| ==> Formed(ps[k])
  }

  function LinesOf(p: Piece): (ls: seq<Line>)
    ensures |ls| >= 1
  {
    match p
    case Gap(line) => [line]
    case Whole(cond, delta, body) => [Head(cond, delta)] + body
  }

  function TextOf(ps: seq<Piece>): seq<Line> {
    if ps == [] then [] else LinesOf(ps[0]) + TextOf(ps[1..])
  }

  // Its blocks, with the line each begins at, if the text begins at line i.
  function BlocksOf(ps: seq<Piece>, i: int): seq<Found> {
    if ps == [] then [] else WithBlock(ps[0], i, BlocksOf(ps[1..], i + |LinesOf(ps[0])|))
  }

  function WithBlock(p: Piece, i: int, fs: seq<Found>): seq<Found> {
    if p.Whole? then [Found(i, p.cond)] + fs else fs
  }

  lemma {:induction false} ClosedAt(src: seq<Line>, i: int, d: int, body: seq<Line>, k: int)
    requires 0 <= i && i + |body| < |src| && src[i + 1..i + 1 + |body|] == body && 0 <= k <= |body|
    requires Depth(d, body, |body|) <= 0 && forall k :: 0 <= k < |body| ==> Depth(d, body, k) > 0
    ensures BlockEnd(src, i + k, Depth(d, body, k)) == i + |body|
    decreases |body| - k
  {
    if k < |body| {
      assert src[i + 1 + k] == src[i + 1..i + 1 + |body|][k] == body[k];
      ClosedAt(src, i, d, body, k + 1);
    }
  }

  lemma FirstPiece(src: seq<Line>, i: int, ps: seq<Piece>)
    requires ps != [] && 0 <= i && i + |TextOf(ps)| <= |src| && src[i..i + |TextOf(ps)|] == TextOf(ps)
    ensures var n := |LinesOf(ps[0])|;
            && |TextOf(ps)| == n + |TextOf(ps[1..])| && src[i..i + n] == LinesOf(ps[0])
            && src[i + n..i + n + |TextOf(ps[1..])|] == TextOf(ps[1..])
            && BlocksOf(ps, i) == WithBlock(ps[0], i, BlocksOf(ps[1..], i + n))
  {
    hide LinesOf;
    var first, rest := LinesOf(ps[0]), TextOf(ps[1..]);
    assert TextOf(ps)[..|first|] == first && TextOf(ps)[|first|..] == rest;
  }

  // Every piece begins before the tail, if the first begins at line i; the last may go on behind it.
  predicate BeginBefore(ps: seq<Piece>, i: int, tail: int)
    decreases |ps|
  {
    ps == [] || (i < tail && BeginBefore(ps[1..], i + |LinesOf(ps[0])|, tail))
  }

  // The lines from i on, up to the tail, are the given pieces.
  ghost predicate MadeOf(src: seq<Line>, i: int, tail: int, ps: seq<Piece>) {
    && AllFormed(ps) && BeginBefore(ps, i, tail) && tail <= i + |TextOf(ps)| <= |src|
    && 0 <= i && src[i..i + |TextOf(ps)|] == TextOf(ps)
  }

  // Every text so made is read as exactly its blocks, each with its own line: none is missed,
  // whatever blank lines stand in between.
  lemma {:induction false} ScanFindsAll(src: seq<Line>, i: int, tail: int, ps: seq<Piece>)
    requires MadeOf(src, i, tail, ps)
    ensures i <= |src| && tail <= |src| && Scan(src, i, tail) == Ok(BlocksOf(ps, i))
    decreases |ps|
  {
    hide *;
    MadeInside(src, i, tail, ps);
    if |ps| > 0 {
      var p, rest, n := MadeFirst(src, i, tail, ps);
      ScanFindsAll(src, i + n, tail, rest);
      ScanOnePiece(src, i, p, tail);
    }
  }

  lemma MadeInside(src: seq<Line>, i: int, tail: int, ps: seq<Piece>)
    requires MadeOf(src, i, tail, ps)
    ensures 0 <= i <= |src| && tail <= |src|
    ensures |ps| == 0 ==> Scan(src, i, tail) == Ok(BlocksOf(ps, i))
  {
  }

  lemma MadeFirst(src: seq<Line>, i: int, tail: int, ps: seq<Piece>) returns (p: Piece, rest: seq<Piece>, n: nat)
    requires MadeOf(src, i, tail, ps) && |ps| > 0
    ensures n == |LinesOf(p)| && 0 <= i < tail <= |src| && Formed(p) && i + n <= |src| && src[i..i + n] == LinesOf(p)
    ensures |rest| < |ps| && MadeOf(src, i + n, tail, rest)
    ensures BlocksOf(ps, i) == WithBlock(p, i, BlocksOf(rest, i + n))
  {
    hide TextOf, BlocksOf, LinesOf, AllFormed, Formed, WithBlock;
    p, rest, n := ps[0], ps[1..], |LinesOf(ps[0])|;
    FirstPiece(src, i, ps);
    RestIsFormed(ps);
  }

  lemma RestIsFormed(ps: seq<Piece>)
    requires AllFormed(ps) && ps != []
    ensures AllFormed(ps[1..]) && Formed(ps[0])
  {
  }

  lemma ScanOnePiece(src: seq<Line>, i: int, p: Piece, tail: int)
    requires Formed(p) && 0 <= i < tail <= |src| && i + |LinesOf(p)| <= |src| && src[i..i + |LinesOf(p)|] == LinesOf(p)
    requires Scan(src, i + |LinesOf(p)|, tail).Ok?
    ensures Scan(src, i, tail)
         == Ok(WithBlock(p, i, Scan(src, i + |LinesOf(p)|, tail).value))
  {
    var n := |LinesOf(p)|;
    assert src[i] == src[i..i + n][0];
    if p.Whole? {
      assert src[i + 1..i + 1 + |p.body|] == src[i..i + n][1..] == p.body;
      ClosedAt(src, i, p.delta, p.body, 0);
    }
  }

  // And nothing else is accepted.
  lemma {:induction false} ScanIsMade(src: seq<Line>, i: int, tail: int) returns (ps: seq<Piece>)
    requires 0 <= i <= |src| && tail <= |src| && Scan(src, i, tail).Ok?
    ensures MadeOf(src, i, tail, ps) && Scan(src, i, tail).value == BlocksOf(ps, i)
    decreases |src| - i
  {
    hide *;
    if tail <= i {
      ps := [];
      NothingMade(src, i, tail);
    } else {
      var p, n := PieceAt(src, i, tail);
      var rest := ScanIsMade(src, i + n, tail);
      ps := [p] + rest;
      OneMorePiece(src, i, tail, p, rest);
    }
  }

  // So what is found are the blocks of the cascade, if it is one, and otherwise there is an error.
  lemma ScanIff(src: seq<Line>, i: int, tail: int, fs: seq<Found>)
    requires 0 <= i <= |src| && tail <= |src|
    ensures Scan(src, i, tail) == Ok(fs) <==> exists ps :: MadeOf(src, i, tail, ps) && fs == BlocksOf(ps, i)
  {
    if Scan(src, i, tail) == Ok(fs) {
      var ps := ScanIsMade(src, i, tail);
    }
    forall ps | MadeOf(src, i, tail, ps) && fs == BlocksOf(ps, i) ensures Scan(src, i, tail) == Ok(fs) {
      ScanFindsAll(src, i, tail, ps);
    }
  }

  // An error names the first line that does not belong: up to it there are pieces, and there stands
  // neither a blank line nor a head, or a head whose block does not end.
  ghost predicate Blames(src: seq<Line>, i: int, tail: int, e: Error, ps: seq<Piece>) {
    && (e.Unexpected? || e.OpenBlock?) && 0 <= i <= e.line < tail <= |src|
    && MadeOf(src, i, e.line, ps) && i + |TextOf(ps)| == e.line
    && (e.Unexpected? ==> !src[e.line].Head? && !src[e.line].Blank?)
    && (e.OpenBlock? ==> src[e.line].Head? && NeverCloses(src[e.line].delta, src[e.line + 1..]))
  }

  predicate HasPiece(src: seq<Line>, i: int)
    requires 0 <= i < |src|
  {
    src[i].Blank? || (src[i].Head? && BlockEnd(src, i, src[i].delta) < |src|)
  }

  lemma ErrorIsBefore(src: seq<Line>, i: int, tail: int)
    requires 0 <= i <= |src| && tail <= |src| && Scan(src, i, tail).Err?
    ensures i < tail
  {
  }

  lemma {:induction false} ScanError(src: seq<Line>, i: int, tail: int) returns (ps: seq<Piece>)
    requires 0 <= i <= |src| && tail <= |src| && Scan(src, i, tail).Err?
    ensures Blames(src, i, tail, Scan(src, i, tail).error, ps)
    decreases |src| - i
  {
    hide *;
    ErrorIsBefore(src, i, tail);
    if HasPiece(src, i) {
      var p, n := PieceBeforeError(src, i, tail);
      var rest := ScanError(src, i + n, tail);
      ps := [p] + rest;
      BlamesMore(src, i, tail, Scan(src, i, tail).error, p, rest);
    } else {
      ps := [];
      BlamedAt(src, i, tail);
    }
  }

  lemma BlamesMore(src: seq<Line>, i: int, tail: int, e: Error, p: Piece, rest: seq<Piece>)
    requires Formed(p) && 0 <= i < tail && i + |LinesOf(p)| <= |src| && src[i..i + |LinesOf(p)|] == LinesOf(p)
    requires Blames(src, i + |LinesOf(p)|, tail, e, rest)
    ensures Blames(src, i, tail, e, [p] + rest)
  {
    hide MadeOf, TextOf, LinesOf, Formed, NeverCloses;
    OneMorePiece(src, i, e.line, p, rest);
    TextOfMore(p, rest);
  }

  lemma BlamedAt(src: seq<Line>, i: int, tail: int)
    requires 0 <= i < tail <= |src| && Scan(src, i, tail).Err? && !HasPiece(src, i)
    ensures Blames(src, i, tail, Scan(src, i, tail).error, [])
  {
    NothingMade(src, i, i);
    assert TextOf([]) == [];
    if src[i].Head? {
      OpenMeans(src, i, src[i].delta, src[i + 1..], 0);
    }
    hide MadeOf, TextOf, NeverCloses;
  }

  lemma TextOfMore(p: Piece, rest: seq<Piece>)
    ensures |TextOf([p] + rest)| == |LinesOf(p)| + |TextOf(rest)|
  {
    assert ([p] + rest)[1..] == rest;
  }

  lemma PieceBeforeError(src: seq<Line>, i: int, tail: int) returns (p: Piece, n: nat)
    requires 0 <= i < tail <= |src| && Scan(src, i, tail).Err? && HasPiece(src, i)
    ensures Formed(p) && 1 <= n == |LinesOf(p)| && i + n <= |src| && src[i..i + n] == LinesOf(p)
    ensures Scan(src, i + n, tail) == Scan(src, i, tail)
  {
    if src[i].Head? {
      var j := BlockEnd(src, i, src[i].delta);
      p, n := Whole(src[i].cond, src[i].delta, src[i + 1..j + 1]), j + 1 - i;
      EndIsClosing(src, i, src[i].delta, p.body, 0);
      assert src[i..j + 1] == [src[i]] + p.body;
    } else {
      p, n := Gap(src[i]), 1;
    }
  }

  ghost predicate NeverCloses(d: int, rest: seq<Line>) {
    forall k :: 0 <= k <= |rest| ==> Depth(d, rest, k) > 0
  }

  lemma {:induction false} OpenMeans(src: seq<Line>, i: int, d: int, rest: seq<Line>, k: int)
    requires 0 <= i < |src| && rest == src[i + 1..] && 0 <= k <= |rest|
    requires BlockEnd(src, i + k, Depth(d, rest, k)) == |src|
    requires forall l :: 0 <= l < k ==> Depth(d, rest, l) > 0
    ensures NeverCloses(d, rest)
    decreases |src| - k
  {
    if k < |rest| {
      assert rest[k] == src[i + 1 + k];
      OpenMeans(src, i, d, rest, k + 1);
    }
  }

  lemma NothingMade(src: seq<Line>, i: int, tail: int)
    requires tail <= i && 0 <= i <= |src| && tail <= |src|
    ensures MadeOf(src, i, tail, []) && BlocksOf([], i) == [] && Scan(src, i, tail) == Ok([])
  {
  }

  lemma OneMorePiece(src: seq<Line>, i: int, tail: int, p: Piece, rest: seq<Piece>)
    requires Formed(p) && 0 <= i < tail && i + |LinesOf(p)| <= |src| && src[i..i + |LinesOf(p)|] == LinesOf(p)
    requires MadeOf(src, i + |LinesOf(p)|, tail, rest)
    ensures MadeOf(src, i, tail, [p] + rest)
    ensures BlocksOf([p] + rest, i)
         == WithBlock(p, i, BlocksOf(rest, i + |LinesOf(p)|))
  {
    hide LinesOf, Formed;
    var (ps, n, m) := ([p] + rest, |LinesOf(p)|, |TextOf(rest)|);
    assert ps[1..] == rest;
    assert src[i..i + n] + src[i + n..i + n + m] == src[i..i + n + m];
  }

  lemma PieceAt(src: seq<Line>, i: int, tail: int) returns (p: Piece, n: nat)
    requires 0 <= i < tail <= |src| && Scan(src, i, tail).Ok?
    ensures Formed(p) && n == |LinesOf(p)| && i + n <= |src| && src[i..i + n] == LinesOf(p)
    ensures Scan(src, i + n, tail).Ok?
    ensures Scan(src, i, tail).value
         == WithBlock(p, i, Scan(src, i + n, tail).value)
  {
    if src[i].Head? {
      var j := BlockEnd(src, i, src[i].delta);
      p, n := Whole(src[i].cond, src[i].delta, src[i + 1..j + 1]), j + 1 - i;
      EndIsClosing(src, i, src[i].delta, p.body, 0);
      assert src[i..j + 1] == [src[i]] + p.body;
    } else {
      p, n := Gap(src[i]), 1;
    }
  }

  lemma {:induction false} EndIsClosing(src: seq<Line>, i: int, d: int, body: seq<Line>, k: int)
    requires 0 <= i && 0 <= k <= |body| && i + |body| < |src| && src[i + 1..i + 1 + |body|] == body
    requires BlockEnd(src, i + k, Depth(d, body, k)) == i + |body|
    requires forall l :: 0 <= l < k ==> Depth(d, body, l) > 0
    ensures Depth(d, body, |body|) <= 0 && forall l :: 0 <= l < |body| ==> Depth(d, body, l) > 0
    decreases |body| - k
  {
    if k < |body| {
      assert src[i + 1 + k] == src[i + 1..i + 1 + |body|][k] == body[k];
      EndIsClosing(src, i, d, body, k + 1);
    }
  }

  function CondsOf(fs: seq<Found>): seq<Cond> {
    seq(|fs|, i requires 0 <= i < |fs| => fs[i].cond)
  }

  // --- Writing the table -----------------------------------------------------------

  // The opcodes from v on that go to block t, in order.
  function Group(target: seq<int>, t: int, v: int): (ops: seq<int>)
    requires 0 <= v <= |target|
    ensures forall u :: u in ops <==> v <= u < |target| && target[u] == t
    decreases |target| - v
  {
    if v == |target| then [] else (if target[v] == t then [v] else []) + Group(target, t, v + 1)
  }

  const MAX_WIDTH := 90

  // Eight spaces and eleven characters for each case.
  function Width(ops: seq<int>): int {
    8 + 11 * |ops|
  }

  function CaseLines(ops: seq<int>, to: int): seq<Line>
    decreases |ops|
  {
    if |ops| < 8 then [CaseGoto(ops, to)] else [Case(ops[..8])] + CaseLines(ops[8..], to)
  }

  lemma OneCase(ops: seq<int>, k: int, n: int)
    requires 0 <= n <= k < |ops|
    ensures ops[k - n..k] + [ops[k]] == ops[k - n..k + 1] == ops[k - n..][..n + 1]
    ensures ops[k - n..][n + 1..] == ops[k + 1..]
  {
  }

  lemma OneLine(lines: seq<Line>, left: seq<int>, to: int)
    requires |left| >= 8
    ensures lines + CaseLines(left, to) == lines + [Case(left[..8])] + CaseLines(left[8..], to)
  {
  }

  lemma LastLine(ops: seq<int>, line: seq<int>, k: int, to: int)
    requires k == |ops| && |line| <= k && |line| < 8 && line == ops[k - |line|..k]
    ensures CaseLines(ops[k - |line|..], to) == [CaseGoto(line, to)]
  {
    assert ops[k - |line|..] == line;
  }

  // One case after the other on a line, until the line is too wide.
  method WriteCases(ops: seq<int>, to: int) returns (lines: seq<Line>)
    ensures lines == CaseLines(ops, to)
  {
    hide CaseLines;
    lines := [];
    var line: seq<int> := [];
    var k := 0;
    assert ops[0..] == ops && [] + CaseLines(ops, to) == CaseLines(ops, to);
    while k < |ops|
      invariant 0 <= k <= |ops| && |line| <= k && |line| < 8 && line == ops[k - |line|..k]
      invariant CaseLines(ops, to) == lines + CaseLines(ops[k - |line|..], to)
    {
      ghost var left := ops[k - |line|..];
      OneCase(ops, k, |line|);
      line := line + [ops[k]];
      k := k + 1;
      if Width(line) > MAX_WIDTH {
        OneLine(lines, left, to);
        lines := lines + [Case(line)];
        line := [];
      }
    }
    LastLine(ops, line, k, to);
    lines := lines + [CaseGoto(line, to)];
  }

  // The case lists of the blocks from t on, and last of the tail.
  function Table(target: seq<int>, t: int, n: int): seq<Line>
    requires 0 <= t <= n
    decreases n - t
  {
    if t == n then TableFor(target, -1) else TableFor(target, t) + Table(target, t + 1, n)
  }

  function TableFor(target: seq<int>, t: int): seq<Line> {
    var ops := Group(target, t, 0);
    if ops == [] then [] else CaseLines(ops, t)
  }

  method WriteTable(target: seq<int>, n: int) returns (lines: seq<Line>)
    requires 0 <= n && forall v :: 0 <= v < |target| ==> -1 <= target[v] < n
    ensures lines == Table(target, 0, n)
  {
    hide CaseLines, Group;
    var groups := BuildGroups(target, n);
    lines := [];
    assert [] + Table(target, 0, n) == Table(target, 0, n);
    for t := 0 to n
      invariant lines + Table(target, t, n) == Table(target, 0, n)
    {
      ghost var before := lines;
      if |groups[t + 1]| > 0 {
        var more := WriteCases(groups[t + 1], t);
        lines := lines + more;
      }
      assert lines == before + TableFor(target, t);
      Associates(before, TableFor(target, t), Table(target, t + 1, n));
    }
    if |groups[0]| > 0 {
      var more := WriteCases(groups[0], -1);
      lines := lines + more;
    }
  }

  // The opcodes by where they go; those for the tail come first.
  method BuildGroups(target: seq<int>, n: int) returns (groups: seq<seq<int>>)
    requires 0 <= n && forall v :: 0 <= v < |target| ==> -1 <= target[v] < n
    ensures |groups| == n + 1 && forall t :: -1 <= t < n ==> groups[t + 1] == Group(target, t, 0)
  {
    groups := seq(n + 1, i => []);
    forall t | -1 <= t < n ensures groups[t + 1] + Group(target, t, 0) == Group(target, t, 0) {
      assert groups[t + 1] == [];
    }
    for v := 0 to |target|
      invariant |groups| == n + 1
      invariant forall t :: -1 <= t < n ==> groups[t + 1] + Group(target, t, v) == Group(target, t, 0)
    {
      ghost var before := groups;
      groups := groups[target[v] + 1 := groups[target[v] + 1] + [v]];
      forall t | -1 <= t < n ensures groups[t + 1] + Group(target, t, v + 1) == Group(target, t, 0) {
        assert before[t + 1] + ([v] + Group(target, t, v + 1)) == before[t + 1] + [v] + Group(target, t, v + 1);
        assert [] + Group(target, t, v + 1) == Group(target, t, v + 1);
      }
    }
    forall t | -1 <= t < n ensures groups[t + 1] == Group(target, t, 0) {
      assert groups[t + 1] + [] == groups[t + 1];
    }
  }

  // --- What the table does ---------------------------------------------------------

  // How many cases a list of lines has for opcode v.
  function CaseCount(lines: seq<Line>, v: int): int {
    if lines == [] then 0
    else (if lines[0].Case? || lines[0].CaseGoto? then multiset(lines[0].ops)[v] else 0) + CaseCount(lines[1..], v)
  }

  // Entering at the case for v and going on to the next jump.
  function SwitchTo(lines: seq<Line>, v: int, entered: bool): Option<int> {
    if lines == [] then None
    else
      match lines[0]
      case Case(ops) => SwitchTo(lines[1..], v, entered || v in ops)
      case CaseGoto(ops, to) => if entered || v in ops then Some(to) else SwitchTo(lines[1..], v, false)
      case _ => SwitchTo(lines[1..], v, entered)
  }

  lemma {:induction false} CaseCountSplits(a: seq<Line>, b: seq<Line>, v: int)
    ensures CaseCount(a + b, v) == CaseCount(a, v) + CaseCount(b, v)
  {
    if a == [] {
      assert a + b == b;
    } else {
      CaseCountSplits(a[1..], b, v);
      assert (a + b)[1..] == a[1..] + b;
    }
  }

  lemma FirstLine(line: Line, more: seq<Line>, rest: seq<Line>, v: int, entered: bool)
    requires line.Case?
    ensures CaseCount([line] + more, v) == multiset(line.ops)[v] + CaseCount(more, v)
    ensures SwitchTo([line] + more + rest, v, entered) == SwitchTo(more + rest, v, entered || v in line.ops)
  {
    assert ([line] + more)[1..] == more && ([line] + more + rest)[1..] == more + rest;
  }

  lemma {:induction false} CaseLinesShow(ops: seq<int>, to: int, rest: seq<Line>, v: int, entered: bool)
    ensures CaseCount(CaseLines(ops, to), v) == multiset(ops)[v]
    ensures SwitchTo(CaseLines(ops, to) + rest, v, entered)
         == if entered || v in ops then Some(to) else SwitchTo(rest, v, false)
    decreases |ops|
  {
    if |ops| < 8 {
      assert (CaseLines(ops, to) + rest)[1..] == rest && CaseLines(ops, to)[1..] == [];
    } else {
      var more := CaseLines(ops[8..], to);
      CaseLinesShow(ops[8..], to, rest, v, entered || v in ops[..8]);
      assert ops == ops[..8] + ops[8..];
      FirstLine(Case(ops[..8]), more, rest, v, entered);
      assert CaseLines(ops, to) == [Case(ops[..8])] + more;
    }
  }

  // Every line but the last of a list is full, as full as the width allows, and the last is not.
  lemma {:induction false} LinesAreFull(ops: seq<int>, to: int, k: int)
    requires 0 <= k < |CaseLines(ops, to)|
    ensures var (lines, line) := (CaseLines(ops, to), CaseLines(ops, to)[k]);
            if k == |lines| - 1 then line.CaseGoto? && Width(line.ops) <= MAX_WIDTH
            else line.Case? && line.ops != [] && Width(line.ops[1..]) <= MAX_WIDTH < Width(line.ops)
    decreases |ops|
  {
    if |ops| >= 8 && k > 0 {
      LinesAreFull(ops[8..], to, k - 1);
    }
  }

  lemma {:induction false} GroupCounts(target: seq<int>, t: int, v: int, from: int)
    requires 0 <= from <= |target|
    ensures multiset(Group(target, t, from))[v] == if from <= v < |target| && target[v] == t then 1 else 0
    decreases |target| - from
  {
    if from < |target| {
      GroupCounts(target, t, v, from + 1);
    }
  }

  lemma TableForShows(target: seq<int>, t: int, rest: seq<Line>, v: int)
    requires 0 <= v < |target|
    ensures CaseCount(TableFor(target, t), v) == if target[v] == t then 1 else 0
    ensures SwitchTo(TableFor(target, t) + rest, v, false)
         == if target[v] == t then Some(t) else SwitchTo(rest, v, false)
  {
    GroupCounts(target, t, v, 0);
    CaseLinesShow(Group(target, t, 0), t, rest, v, false);
    assert [] + rest == rest;
  }

  // Every opcode with a target has exactly one case, and it jumps to its target.
  lemma {:induction false} TableShows(target: seq<int>, t: int, n: int, rest: seq<Line>, v: int)
    requires 0 <= t <= n && 0 <= v < |target| && (target[v] == -1 || t <= target[v] < n)
    ensures CaseCount(Table(target, t, n), v) == 1
    ensures SwitchTo(Table(target, t, n) + rest, v, false) == Some(target[v])
    decreases n - t
  {
    hide TableFor, CaseCount, SwitchTo;
    if t == n {
      TableForShows(target, -1, rest, v);
    } else {
      var front, back := TableFor(target, t), Table(target, t + 1, n);
      TableForShows(target, t, back + rest, v);
      CaseCountSplits(front, back, v);
      assert front + back + rest == front + (back + rest);
      if target[v] != t {
        TableShows(target, t + 1, n, rest, v);
      } else {
        OtherGroupsLack(target, t + 1, n, v);
      }
    }
  }

  lemma {:induction false} OtherGroupsLack(target: seq<int>, t: int, n: int, v: int)
    requires 0 <= t <= n && 0 <= v < |target| && 0 <= target[v] < t
    ensures CaseCount(Table(target, t, n), v) == 0
    decreases n - t
  {
    hide TableFor, CaseCount;
    if t == n {
      TableForShows(target, -1, [], v);
    } else {
      TableForShows(target, t, [], v);
      OtherGroupsLack(target, t + 1, n, v);
      CaseCountSplits(TableFor(target, t), Table(target, t + 1, n), v);
    }
  }

  // And a number that is no opcode has none.
  lemma {:induction false} NoCaseBeyond(target: seq<int>, t: int, n: int, v: int)
    requires 0 <= t <= n && !(0 <= v < |target|)
    ensures CaseCount(Table(target, t, n), v) == 0
    decreases n - t
  {
    hide TableFor, CaseCount;
    if t == n {
      TableForLacks(target, -1, v);
    } else {
      TableForLacks(target, t, v);
      NoCaseBeyond(target, t + 1, n, v);
      CaseCountSplits(TableFor(target, t), Table(target, t + 1, n), v);
    }
  }

  lemma TableForLacks(target: seq<int>, t: int, v: int)
    requires !(0 <= v < |target|)
    ensures CaseCount(TableFor(target, t), v) == 0
  {
    GroupCounts(target, t, v, 0);
    CaseLinesShow(Group(target, t, 0), t, [], v, false);
  }

  // --- The whole file --------------------------------------------------------------

  // The first line from i on, before the limit, that is a given line.
  function Find(src: seq<Line>, l: Line, i: int, limit: int): (j: int)
    requires 0 <= i && limit <= |src|
    ensures j == -1 || (i <= j < limit && src[j] == l && forall k :: i <= k < j ==> src[k] != l)
    ensures j == -1 ==> forall k :: i <= k < limit ==> src[k] != l
    decreases limit - i
  {
    if i >= limit then -1 else if src[i] == l then i else Find(src, l, i + 1, limit)
  }

  function FindFunction(src: seq<Line>, i: int): (j: int)
    requires 0 <= i
    ensures j == -1 || (i <= j < |src| && (src[j].FunctionHead? || src[j].StepHead?))
    ensures forall k :: i <= k < (if j == -1 then |src| else j) ==> !src[k].FunctionHead? && !src[k].StepHead?
    decreases |src| - i
  {
    if i >= |src| then -1 else if src[i].FunctionHead? || src[i].StepHead? then i else FindFunction(src, i + 1)
  }

  datatype Layout = Layout(mark: int, tail: int, blocks: seq<Found>)

  // Where the cascade lies in a file without a table.
  function LayoutOf(s: seq<Line>): (r: Result<Layout>)
    ensures r.Ok? ==> 0 <= r.value.mark < |s| && s[r.value.mark] == EndMark
  {
    var start := Find(s, StepHead, 0, |s|);
    if start == -1 then Err(NoStep)
    else
      var end := FindFunction(s, start + 1);
      if end == -1 then Err(NoFunctionAfter)
      else
        var mark := Find(s, EndMark, start, end);
        if mark == -1 then Err(NoMark)
        else
          var tail := Find(s, TailLabel, start, end);
          if tail == -1 then Err(NoTail)
          else
            match Scan(s, mark + 1, tail)
            case Err(e) => Err(e)
            case Ok(blocks) => Ok(Layout(mark, tail, blocks))
  }

  function Targets(conds: seq<Cond>, v: int): (target: seq<int>)
    requires 0 <= v <= 256
    ensures |target| == 256 - v
    ensures forall u :: 0 <= u < 256 - v ==> target[u] == FirstMatch(conds, v + u, 0)
    decreases 256 - v
  {
    if v == 256 then [] else [FirstMatch(conds, v, 0)] + Targets(conds, v + 1)
  }

  lemma TargetsAre(conds: seq<Cond>, target: seq<int>)
    requires IsTargetTable(conds, target)
    ensures target == Targets(conds, 0)
    ensures forall v :: 0 <= v < |target| ==> -1 <= target[v] < |conds|
  {
    hide FirstMatch, Targets;
    forall v | 0 <= v < 256 ensures target[v] == Targets(conds, 0)[v] && -1 <= target[v] < |conds| {
      assert Targets(conds, 0)[v] == FirstMatch(conds, 0 + v, 0);
    }
  }

  // The label, if any, that goes in front of line i: that of the block there, if it is a target.
  function LabelsAt(fs: seq<Found>, target: seq<int>, i: int, t: int): seq<Line>
    requires 0 <= t <= |fs|
    decreases |fs| - t
  {
    if t == |fs| then [] else if fs[t].line == i && t in target then [Label(t)] else LabelsAt(fs, target, i, t + 1)
  }

  function Labelled(s: seq<Line>, fs: seq<Found>, target: seq<int>, i: int): seq<Line>
    requires 0 <= i <= |s|
    decreases |s| - i
  {
    if i == |s| then [] else LabelsAt(fs, target, i, 0) + [s[i]] + Labelled(s, fs, target, i + 1)
  }

  // The header of the table has nine lines of comment and the switch; its end a brace and a gap.
  const HEADER := [Begin, Banner, Banner, Banner, Banner, Banner, Banner, Banner, Banner, Banner, Banner]
  const FOOTER := [Banner, Banner]

  function Inserted(s: seq<Line>, lay: Layout): seq<Line>
    requires 0 <= lay.mark <= |s|
  {
    var target := Targets(CondsOf(lay.blocks), 0);
    s[..lay.mark] + HEADER + Table(target, 0, |lay.blocks|) + FOOTER + Labelled(s, lay.blocks, target, lay.mark)
  }

  function Generate(src: seq<Line>): Result<seq<Line>> {
    match Strip(src, 0)
    case Err(e) => Err(e)
    case Ok(s) =>
      match LayoutOf(s)
      case Err(e) => Err(e)
      case Ok(lay) => Ok(Inserted(s, lay))
  }

  method Regenerate(src: seq<Line>) returns (r: Result<seq<Line>>)
    ensures r == Generate(src)
  {
    hide Strip, Find, FindFunction, Scan, FirstMatch, Targets, Table, Labelled;
    var stripped := StripGenerated(src);
    if stripped.Err? {
      return Err(stripped.error);
    }
    var s := stripped.value;
    var start := Find(s, StepHead, 0, |s|);
    if start == -1 {
      return Err(NoStep);
    }
    var end := FindFunction(s, start + 1);
    if end == -1 {
      return Err(NoFunctionAfter);
    }
    var mark, tail := Find(s, EndMark, start, end), Find(s, TailLabel, start, end);
    if mark == -1 {
      return Err(NoMark);
    }
    if tail == -1 {
      return Err(NoTail);
    }
    var found := CollectBlocks(s, mark, tail);
    if found.Err? {
      return Err(found.error);
    }
    var blocks := found.value;
    var target := BuildTargets(CondsOf(blocks));
    TargetsAre(CondsOf(blocks), target);
    var table := WriteTable(target, |blocks|);
    var out := WriteLabels(s, blocks, target, mark, s[..mark] + HEADER + table + FOOTER);
    return Ok(out);
  }

  method WriteLabels(s: seq<Line>, fs: seq<Found>, target: seq<int>, mark: int, front: seq<Line>)
    returns (out: seq<Line>)
    requires 0 <= mark <= |s|
    ensures out == front + Labelled(s, fs, target, mark)
  {
    out := front;
    for idx := mark to |s|
      invariant out + Labelled(s, fs, target, idx) == front + Labelled(s, fs, target, mark)
    {
      var mine := LabelsAt(fs, target, idx, 0);
      assert out + (mine + [s[idx]] + Labelled(s, fs, target, idx + 1))
             == out + mine + [s[idx]] + Labelled(s, fs, target, idx + 1);
      out := out + mine + [s[idx]];
    }
    assert out + [] == out;
  }

  // --- Which files generate ----------------------------------------------------------

  // The lines of a file with a cascade: where step() begins, the mark and the tail in it, the next
  // function, and from the mark to the tail nothing but the given pieces.
  ghost predicate HasCascade(s: seq<Line>, start: int, mark: int, tail: int, end: int, ps: seq<Piece>) {
    && 0 <= start < mark < end < |s| && start < tail < end
    && s[start] == StepHead && s[mark] == EndMark && s[tail] == TailLabel && (s[end].FunctionHead? || s[end].StepHead?)
    && (forall k :: 0 <= k < start ==> s[k] != StepHead)
    && (forall k :: start < k < end ==> !s[k].FunctionHead? && !s[k].StepHead?)
    && (forall k :: start <= k < mark ==> s[k] != EndMark)
    && (forall k :: start <= k < tail ==> s[k] != TailLabel)
    && MadeOf(s, mark + 1, tail, ps)
  }

  // Such a file, with or without an old table in it, generates, and the table is for exactly the
  // blocks of the cascade.
  lemma CascadeGenerates(src: seq<Line>, s: seq<Line>, start: int, mark: int, tail: int, end: int, ps: seq<Piece>)
    requires Strip(src, 0) == Ok(s) && HasCascade(s, start, mark, tail, end, ps)
    ensures LayoutOf(s) == Ok(Layout(mark, tail, BlocksOf(ps, mark + 1)))
    ensures Generate(src) == Ok(Inserted(s, Layout(mark, tail, BlocksOf(ps, mark + 1))))
  {
    hide Strip, Scan, MadeOf, BlocksOf, Find, FindFunction, Inserted;
    ScanFindsAll(s, mark + 1, tail, ps);
    FirstIs(s, StepHead, 0, |s|, start);
    FirstIs(s, EndMark, start, end, mark);
    FirstIs(s, TailLabel, start, end, tail);
    FunctionIs(s, start + 1, end);
    hide HasCascade;
  }

  // And no other file generates.
  lemma GeneratedHasCascade(src: seq<Line>) returns (start: int, end: int, ps: seq<Piece>)
    requires Generate(src).Ok?
    ensures Strip(src, 0).Ok? && LayoutOf(Strip(src, 0).value).Ok?
    ensures var s := Strip(src, 0).value;
            var lay := LayoutOf(s).value;
            HasCascade(s, start, lay.mark, lay.tail, end, ps) && lay.blocks == BlocksOf(ps, lay.mark + 1)
  {
    hide Strip, Scan, MadeOf, BlocksOf, Find, FindFunction, Inserted;
    var s := Strip(src, 0).value;
    var lay := LayoutOf(s).value;
    start := Find(s, StepHead, 0, |s|);
    end := FindFunction(s, start + 1);
    ps := ScanIsMade(s, lay.mark + 1, lay.tail);
  }

  // The lines of step(): from its own up to the next function, or to the end of the file.
  ghost predicate StepUpTo(s: seq<Line>, start: int, end: int) {
    && 0 <= start < end <= |s| && s[start] == StepHead && (forall k :: 0 <= k < start ==> s[k] != StepHead)
    && (forall k :: start < k < end ==> !s[k].FunctionHead? && !s[k].StepHead?)
    && (end < |s| ==> s[end].FunctionHead? || s[end].StepHead?)
  }

  // What the error is when it does not: the first of the lines looked for that is not there, or what
  // is wrong with the cascade.
  lemma WhyNot(s: seq<Line>) returns (start: int, end: int)
    ensures LayoutOf(s) == Err(NoStep) <==> StepHead !in s
    ensures StepHead in s ==> StepUpTo(s, start, end) && (LayoutOf(s) == Err(NoFunctionAfter) <==> end == |s|)
    ensures StepHead in s && end < |s| ==>
              && (LayoutOf(s) == Err(NoMark) <==> EndMark !in s[start..end])
              && (LayoutOf(s) == Err(NoTail) <==> EndMark in s[start..end] && TailLabel !in s[start..end])
  {
    hide Scan, Find, FindFunction;
    assert s[0..|s|] == s;
    OccursIff(s, StepHead, 0, |s|);
    start, end := Find(s, StepHead, 0, |s|), |s|;
    if start != -1 {
      end := FindFunction(s, start + 1);
      if end == -1 {
        end := |s|;
      } else {
        OccursIff(s, EndMark, start, end);
        OccursIff(s, TailLabel, start, end);
        CascadeErrors(s, Find(s, EndMark, start, end), Find(s, TailLabel, start, end));
        hide StepUpTo;
      }
    }
  }

  lemma CascadeErrors(s: seq<Line>, mark: int, tail: int)
    requires -1 <= mark < |s| && tail <= |s|
    ensures Scan(s, mark + 1, tail).Err? ==>
              Scan(s, mark + 1, tail).error.Unexpected? || Scan(s, mark + 1, tail).error.OpenBlock?
  {
    if Scan(s, mark + 1, tail).Err? {
      var _ := ScanError(s, mark + 1, tail);
    }
  }

  lemma OccursIff(s: seq<Line>, l: Line, i: int, limit: int)
    requires 0 <= i <= limit <= |s|
    ensures Find(s, l, i, limit) == -1 <==> l !in s[i..limit]
  {
    hide Find;
    var j := Find(s, l, i, limit);
    if j != -1 {
      assert s[i..limit][j - i] == l;
    }
  }

  lemma FirstIs(s: seq<Line>, l: Line, i: int, limit: int, j: int)
    requires 0 <= i <= j < limit <= |s| && s[j] == l && forall k :: i <= k < j ==> s[k] != l
    ensures Find(s, l, i, limit) == j
  {
    hide Find;
  }

  lemma FunctionIs(s: seq<Line>, i: int, j: int)
    requires 0 <= i <= j < |s| && (s[j].FunctionHead? || s[j].StepHead?)
    requires forall k :: i <= k < j ==> !s[k].FunctionHead? && !s[k].StepHead?
    ensures FindFunction(s, i) == j
  {
    hide FindFunction;
  }

  // --- Round trips -----------------------------------------------------------------

  lemma {:induction false} TableHasNoMark(target: seq<int>, t: int, n: int)
    requires 0 <= t <= n
    ensures EndMark !in Table(target, t, n)
    decreases n - t
  {
    CaseLinesHaveNoMark(Group(target, if t == n then -1 else t, 0), if t == n then -1 else t);
    if t < n {
      TableHasNoMark(target, t + 1, n);
    }
  }

  lemma {:induction false} CaseLinesHaveNoMark(ops: seq<int>, to: int)
    ensures EndMark !in CaseLines(ops, to)
    decreases |ops|
  {
    if |ops| >= 8 {
      CaseLinesHaveNoMark(ops[8..], to);
    }
  }

  lemma {:induction false} LabelsStripAway(s: seq<Line>, fs: seq<Found>, target: seq<int>, i: int)
    requires 0 <= i <= |s| && Clean(s)
    ensures Strip(Labelled(s, fs, target, i), 0) == Ok(s[i..])
    decreases |s| - i
  {
    if i < |s| {
      LabelsStripAway(s, fs, target, i + 1);
      var mine, rest := LabelsAt(fs, target, i, 0), Labelled(s, fs, target, i + 1);
      LabelIsOne(fs, target, i, 0);
      StripFromTail([s[i]], rest, 0);
      StripFromTail(mine, [s[i]] + rest, 0);
      assert mine + [s[i]] + rest == mine + ([s[i]] + rest);
      assert s[i..] == [s[i]] + s[i + 1..];
    } else {
      assert s[i..] == [];
    }
  }

  lemma {:induction false} LabelIsOne(fs: seq<Found>, target: seq<int>, i: int, t: int)
    requires 0 <= t <= |fs|
    ensures var ls := LabelsAt(fs, target, i, t); ls == [] || (|ls| == 1 && ls[0].Label?)
    decreases |fs| - t
  {
    if t < |fs| {
      LabelIsOne(fs, target, i, t + 1);
    }
  }

  // Stripping a generated file gives back the stripped source it came from.
  lemma StripUndoesGenerate(src: seq<Line>)
    ensures Generate(src).Ok? ==> Strip(Generate(src).value, 0) == Strip(src, 0)
  {
    if Generate(src).Ok? {
      StripIsClean(src, 0);
      hide Strip, LayoutOf, Scan;
      var s := Strip(src, 0).value;
      var lay := LayoutOf(s).value;
      LayoutIsInOrder(s);
      StripInserted(s, lay);
    }
  }

  lemma LayoutIsInOrder(s: seq<Line>)
    requires LayoutOf(s).Ok?
    ensures var lay := LayoutOf(s).value;
            forall u :: 0 <= u < |lay.blocks| ==> lay.mark < lay.blocks[u].line < |s|
  {
    var lay := LayoutOf(s).value;
    ScanFindsHeads(s, lay.mark + 1, lay.tail);
  }

  lemma StripInserted(s: seq<Line>, lay: Layout)
    requires Clean(s) && 0 <= lay.mark < |s| && s[lay.mark] == EndMark
    requires forall u :: 0 <= u < |lay.blocks| ==> lay.mark < lay.blocks[u].line
    ensures Strip(Inserted(s, lay), 0) == Ok(s)
  {
    hide Strip, Table, Labelled, LabelsAt, Targets, CondsOf;
    var target := Targets(CondsOf(lay.blocks), 0);
    var table, rest := Table(target, 0, |lay.blocks|), Labelled(s, lay.blocks, target, lay.mark);
    TableHasNoMark(target, 0, |lay.blocks|);
    NoMarkInside(table);
    NoLabelElsewhere(lay.blocks, target, lay.mark, 0);
    StartsUnlabelled(s, lay.blocks, target, lay.mark);
    LabelsStripAway(s, lay.blocks, target, lay.mark);
    Regroup(s[..lay.mark], HEADER, table, FOOTER, rest);
    StripDropsTable(s[..lay.mark], HEADER[1..] + table + FOOTER, rest);
    assert s[..lay.mark] + s[lay.mark..] == s;
  }

  lemma StartsUnlabelled(s: seq<Line>, fs: seq<Found>, target: seq<int>, i: int)
    requires 0 <= i < |s| && LabelsAt(fs, target, i, 0) == []
    ensures Labelled(s, fs, target, i) != [] && Labelled(s, fs, target, i)[0] == s[i]
  {
  }

  lemma NoMarkInside(table: seq<Line>)
    requires EndMark !in table
    ensures EndMark !in HEADER[1..] + table + FOOTER && HEADER[0] == Begin
  {
  }

  lemma Regroup(a: seq<Line>, b: seq<Line>, c: seq<Line>, d: seq<Line>, e: seq<Line>)
    requires b != []
    ensures a + b + c + d + e == a + [b[0]] + (b[1..] + c + d) + e
  {
  }

  lemma {:induction false} NoLabelElsewhere(fs: seq<Found>, target: seq<int>, i: int, t: int)
    requires 0 <= t <= |fs| && forall u :: t <= u < |fs| ==> fs[u].line != i
    ensures LabelsAt(fs, target, i, t) == []
    decreases |fs| - t
  {
    if t < |fs| {
      NoLabelElsewhere(fs, target, i, t + 1);
    }
  }

  // So generating again changes nothing.
  lemma GenerateIsIdempotent(src: seq<Line>)
    ensures Generate(src).Ok? ==> Generate(Generate(src).value) == Generate(src)
  {
    StripUndoesGenerate(src);
  }

  // --- The labels, and the whole of it -----------------------------------------------

  // Behind the label of a block stands the source from the head of that very block on, but for the
  // labels in it.
  ghost predicate LabelsHeads(out: seq<Line>, s: seq<Line>, fs: seq<Found>) {
    forall p {:trigger out[p]} :: 0 <= p < |out| && out[p].Label? ==> LabelHeads(out[p..], s, fs)
  }

  // No label but those of blocks that some opcode goes to.
  ghost predicate LabelsAreTargets(out: seq<Line>, target: seq<int>) {
    forall p :: 0 <= p < |out| && out[p].Label? ==> out[p].block in target
  }

  ghost predicate LabelHeads(code: seq<Line>, s: seq<Line>, fs: seq<Found>) {
    && |code| >= 2 && code[0].Label? && 0 <= code[0].block < |fs|
    && var line := fs[code[0].block].line;
       0 <= line < |s| && code[1] == s[line] && s[line].Head? && Strip(code, 0) == Ok(s[line..])
  }

  ghost predicate Located(s: seq<Line>, fs: seq<Found>) {
    && (forall t :: 0 <= t < |fs| ==> 0 <= fs[t].line < |s| && s[fs[t].line].Head? && s[fs[t].line].cond == fs[t].cond)
    && (forall t, u :: 0 <= t < u < |fs| ==> fs[t].line < fs[u].line)
  }

  lemma {:induction false} LabelIsOfBlock(fs: seq<Found>, target: seq<int>, i: int, t: int)
    requires 0 <= t <= |fs|
    ensures var ls := LabelsAt(fs, target, i, t);
            ls == [] || (|ls| == 1 && ls[0].Label? && t <= ls[0].block < |fs| && fs[ls[0].block].line == i &&
                         ls[0].block in target)
    decreases |fs| - t
  {
    if t < |fs| {
      LabelIsOfBlock(fs, target, i, t + 1);
    }
  }

  lemma {:induction false} LabelledHeads(s: seq<Line>, fs: seq<Found>, target: seq<int>, i: int)
    requires 0 <= i <= |s| && Clean(s) && Located(s, fs)
    ensures LabelsHeads(Labelled(s, fs, target, i), s, fs) && LabelsAreTargets(Labelled(s, fs, target, i), target)
    decreases |s| - i
  {
    if i < |s| {
      var mine, rest := LabelsAt(fs, target, i, 0), Labelled(s, fs, target, i + 1);
      var out := Labelled(s, fs, target, i);
      LabelledHeads(s, fs, target, i + 1);
      LabelIsOfBlock(fs, target, i, 0);
      LabelsStripAway(s, fs, target, i);
      assert out == mine + [s[i]] + rest;
      hide Labelled, LabelsAt, Strip, LabelHeads;
      forall p | 0 <= p < |out| && out[p].Label? ensures LabelHeads(out[p..], s, fs) {
        if p > |mine| {
          var q := p - |mine| - 1;
          assert out[p] == rest[q] && out[p..] == rest[q..];
        } else {
          FirstLabelHeads(out, s, fs, i);
          assert out[p..] == out;
        }
      }
    }
  }

  lemma FirstLabelHeads(out: seq<Line>, s: seq<Line>, fs: seq<Found>, i: int)
    requires 0 <= i < |s| && |out| >= 2 && out[0].Label? && out[1] == s[i] && s[i].Head?
    requires 0 <= out[0].block < |fs| && fs[out[0].block].line == i && Strip(out, 0) == Ok(s[i..])
    ensures LabelHeads(out, s, fs)
  {
  }

  // And the blocks found from there on are that block and those behind it.
  lemma {:induction false} ScanFromBlock(src: seq<Line>, i: int, tail: int, t: int)
    requires 0 <= i <= |src| && tail <= |src| && Scan(src, i, tail).Ok? && 0 <= t < |Scan(src, i, tail).value|
    ensures var fs := Scan(src, i, tail).value;
            i <= fs[t].line < tail && Scan(src, fs[t].line, tail) == Ok(fs[t..])
    decreases |src| - i
  {
    var fs := Scan(src, i, tail).value;
    if src[i].Head? {
      var j := BlockEnd(src, i, src[i].delta);
      var rest := Scan(src, j + 1, tail).value;
      assert fs == [Found(i, src[i].cond)] + rest;
      if t == 0 {
        assert fs[0..] == fs;
      } else {
        ScanFromBlock(src, j + 1, tail, t - 1);
        assert fs[t..] == rest[t - 1..];
      }
    } else {
      ScanFromBlock(src, i + 1, tail, t);
    }
  }

  // And every block some opcode goes to has its label.
  lemma {:induction false} TargetIsLabelled(s: seq<Line>, fs: seq<Found>, target: seq<int>, i: int, t: int)
    requires 0 <= i <= |s| && Located(s, fs) && 0 <= t < |fs| && t in target && i <= fs[t].line
    ensures Label(t) in Labelled(s, fs, target, i)
    decreases |s| - i
  {
    if i == fs[t].line {
      LabelAtOwnLine(fs, target, t, 0);
    } else {
      TargetIsLabelled(s, fs, target, i + 1, t);
    }
  }

  lemma {:induction false} LabelAtOwnLine(fs: seq<Found>, target: seq<int>, t: int, u: int)
    requires 0 <= u <= t < |fs| && t in target && forall k, l :: 0 <= k < l < |fs| ==> fs[k].line < fs[l].line
    ensures LabelsAt(fs, target, fs[t].line, u) == [Label(t)]
    decreases t - u
  {
    if u < t {
      assert fs[u].line < fs[t].line;
      LabelAtOwnLine(fs, target, t, u + 1);
    }
  }

  // From file to behaviour. In a generated file the table has one case for every opcode byte and
  // none besides; it sends the byte to the tail or to the label of a block, behind which stands the
  // cascade from that very block on; and, where the blocks' conditions are plain, going there is the
  // same as running the whole cascade.
  lemma GeneratedTableDispatches<R>(src: seq<Line>, blocks: seq<Block<R>>, op: int, m: Machine<R>)
    requires 0 <= op < 256 && forall k :: 0 <= k < |blocks| ==> Plain(blocks[k].cond)
    ensures Generate(src).Ok? && Conds(blocks) == CondsOf(LayoutOf(Strip(src, 0).value).value.blocks) ==>
            var s := Strip(src, 0).value;
            var lay := LayoutOf(s).value;
            var target := Targets(CondsOf(lay.blocks), 0);
            var table := Table(target, 0, |lay.blocks|);
            var code := Labelled(s, lay.blocks, target, lay.mark);
            && Generate(src).value == s[..lay.mark] + HEADER + table + FOOTER + code
            && CaseCount(table, op) == 1 && SwitchTo(table, op, false) == Some(target[op])
            && LabelsHeads(code, s, lay.blocks) && LabelsAreTargets(code, target)
            && (target[op] == -1 || LeadsToRest(s, lay, code, blocks, target[op]))
            && Jump(blocks, target, op, m) == Run(blocks, 0, op, m)
            && (target[op] != -1 ==> Jump(blocks, target, op, m) == Run(blocks[target[op]..], 0, op, m))
  {
    if Generate(src).Ok? && Conds(blocks) == CondsOf(LayoutOf(Strip(src, 0).value).value.blocks) {
      hide *;
      GeneratedText(src);
      var s := Strip(src, 0).value;
      var lay := LayoutOf(s).value;
      var target := Targets(CondsOf(lay.blocks), 0);
      LayoutIsLocated(s);
      TargetsInRange(lay.blocks, target);
      TableDispatches(target, |lay.blocks|, op);
      if target[op] != -1 {
        TargetIsLabelled(s, lay.blocks, target, lay.mark, target[op]);
        RestIsBehind(s, lay, target, blocks, op, m);
      }
      LabelledHeads(s, lay.blocks, target, lay.mark);
      DispatchPreserves(blocks, target, op, m);
    }
  }

  // The label of block t is there, and the blocks collected from that block's line on are the blocks
  // from t on.
  ghost predicate LeadsToRest<R>(s: seq<Line>, lay: Layout, code: seq<Line>, blocks: seq<Block<R>>, t: int) {
    && 0 <= t < |blocks| == |lay.blocks| && Label(t) in code && 0 <= lay.blocks[t].line <= |s| && lay.tail <= |s|
    && Scan(s, lay.blocks[t].line, lay.tail) == Ok(lay.blocks[t..])
    && Conds(blocks[t..]) == CondsOf(lay.blocks[t..])
  }

  lemma {:induction false} RestIsBehind<R>(s: seq<Line>, lay: Layout, target: seq<int>, blocks: seq<Block<R>>,
                                           op: int, m: Machine<R>)
    requires LayoutOf(s) == Ok(lay) && Conds(blocks) == CondsOf(lay.blocks) && 0 <= lay.mark <= |s|
    requires 0 <= op < |target| && 0 <= target[op] < |lay.blocks|
    requires Label(target[op]) in Labelled(s, lay.blocks, target, lay.mark)
    ensures LeadsToRest(s, lay, Labelled(s, lay.blocks, target, lay.mark), blocks, target[op])
    ensures Jump(blocks, target, op, m) == Run(blocks[target[op]..], 0, op, m)
  {
    var t := target[op];
    assert |blocks| == |Conds(blocks)| == |lay.blocks|;
    RunFromBlock(blocks, t, t, op, m);
    LayoutIsScanned(s);
    hide Scan, Run, LayoutOf, Labelled;
    ScanFromBlock(s, lay.mark + 1, lay.tail, t);
    forall k | 0 <= k < |blocks| - t ensures Conds(blocks[t..])[k] == CondsOf(lay.blocks[t..])[k] {
      assert Conds(blocks)[t + k] == CondsOf(lay.blocks)[t + k];
    }
  }

  lemma {:induction false} LayoutIsScanned(s: seq<Line>)
    requires LayoutOf(s).Ok?
    ensures var lay := LayoutOf(s).value;
            lay.mark < |s| && lay.tail <= |s| && Scan(s, lay.mark + 1, lay.tail) == Ok(lay.blocks)
  {
  }

  // What a generated file is made of.
  lemma GeneratedText(src: seq<Line>)
    requires Generate(src).Ok?
    ensures Strip(src, 0).Ok? && LayoutOf(Strip(src, 0).value).Ok?
    ensures var s := Strip(src, 0).value;
            var lay := LayoutOf(s).value;
            && Clean(s) && 0 <= lay.mark < |s| && Generate(src).value == Inserted(s, lay)
            && Inserted(s, lay)
               == s[..lay.mark] + HEADER + Table(Targets(CondsOf(lay.blocks), 0), 0, |lay.blocks|) + FOOTER
                  + Labelled(s, lay.blocks, Targets(CondsOf(lay.blocks), 0), lay.mark)
  {
    hide Strip, LayoutOf, Table, Labelled, Targets;
    StripIsClean(src, 0);
  }

  lemma TargetsInRange(fs: seq<Found>, target: seq<int>)
    requires target == Targets(CondsOf(fs), 0)
    ensures |target| == 256 && |CondsOf(fs)| == |fs| && IsTargetTable(CondsOf(fs), target)
    ensures forall v :: 0 <= v < |target| ==> -1 <= target[v] < |fs|
  {
    TargetsAre(CondsOf(fs), target);
  }

  lemma TableDispatches(target: seq<int>, n: int, op: int)
    requires 0 <= op < |target| && -1 <= target[op] < n
    ensures CaseCount(Table(target, 0, n), op) == 1 && SwitchTo(Table(target, 0, n), op, false) == Some(target[op])
  {
    hide *;
    TableShows(target, 0, n, [], op);
    assert Table(target, 0, n) + [] == Table(target, 0, n);
  }

  lemma LayoutIsLocated(s: seq<Line>)
    requires LayoutOf(s).Ok?
    ensures var lay := LayoutOf(s).value;
            Located(s, lay.blocks) && forall t :: 0 <= t < |lay.blocks| ==> lay.mark < lay.blocks[t].line
  {
    var lay := LayoutOf(s).value;
    ScanFindsHeads(s, lay.mark + 1, lay.tail);
  }
}
