// Strokes and fills as meshes: which indices and vertices the drawing code writes into the room
// it has reserved, and that nothing temporary is read before it is written. Coordinates are left
// out; a vertex is known by its point and the segments whose normals it is offset along.
module Outlines {
  import opened Common

  // Offset along the average of the normals of two segments, on one of the sides.
  datatype Vertex = OnLine(point: int) | Offset(point: int, before: int, after: int, side: int)

  datatype Stroke = Thin | Thick

  // Vertices for each point, and how many of them are offset.
  function PerPoint(k: Stroke): (r: int)
    ensures 3 <= r <= 4
  {
    if k.Thin? then 3 else 4
  }

  function Sides(k: Stroke): (r: int)
    ensures r == 2 || r == 4
  {
    if k.Thin? then 2 else 4
  }

  // The triangles of a segment between the vertices at a and those at b.
  function Segment(k: Stroke, a: int, b: int): (r: seq<int>)
    ensures (k.Thin? ==> |r| == 12) && (k.Thick? ==> |r| == 18)
  {
    if k.Thin? then
      [b, a, a + 2, a + 2, b + 2, b, b + 1, a + 1, a, a, b, b + 1]
    else
      [b + 1, a + 1, a + 2, a + 2, b + 2, b + 1, b + 1, a + 1, a, a, b, b + 1, b + 2, a + 2, a + 3, a + 3, b + 3, b + 2]
  }

  function Next(i: int, n: int): int {
    if i + 1 == n then 0 else i + 1
  }

  // The segments a stroke consists of.
  function Count(n: int, closed: bool): int {
    if closed then n else n - 1
  }

  function StrokeIndices(k: Stroke, base: int, n: int, count: int): seq<int>
    requires 0 <= count
    decreases count
  {
    if count == 0 then []
    else StrokeIndices(k, base, n, count - 1)
         + Segment(k, base + PerPoint(k) * (count - 1), base + PerPoint(k) * Next(count - 1, n))
  }

  // The two segments that meet at a point; the ends of an open line have one each.
  function Before(i: int, n: int, closed: bool): int {
    if i == 0 then (if closed then n - 1 else 0) else i - 1
  }

  function After(i: int, n: int, closed: bool): int {
    if i == n - 1 && !closed then n - 2 else i
  }

  // What the s-th vertex of point i is.
  function StrokeVertex(k: Stroke, n: int, closed: bool, i: int, s: int): Vertex {
    if k.Thin? && s == 0 then OnLine(i)
    else Offset(i, Before(i, n, closed), After(i, n, closed), if k.Thin? then s - 1 else s)
  }

  predicate Within(idx: seq<int>, lo: int, hi: int) {
    forall j :: 0 <= j < |idx| ==> lo <= idx[j] < hi
  }

  // Exactly the reserved number of indices, every one of them a vertex of this stroke.
  lemma {:induction false} StrokeIndicesFit(k: Stroke, base: int, n: int, count: int)
    requires 2 <= n && 0 <= count <= n
    ensures var idx := StrokeIndices(k, base, n, count);
            && |idx| == count * (if k.Thin? then 12 else 18)
            && Within(idx, base, base + n * PerPoint(k))
    decreases count
  {
    hide Segment;
    if count > 0 {
      StrokeIndicesFit(k, base, n, count - 1);
      SegmentFits(k, base, n, count - 1, Next(count - 1, n));
    }
  }

  lemma SegmentFits(k: Stroke, base: int, n: int, i: int, j: int)
    requires 0 <= i < n && 0 <= j < n
    ensures Within(Segment(k, base + PerPoint(k) * i, base + PerPoint(k) * j), base, base + n * PerPoint(k))
  {
    assert 0 <= PerPoint(k) * i && PerPoint(k) * i + PerPoint(k) <= n * PerPoint(k);
    assert 0 <= PerPoint(k) * j && PerPoint(k) * j + PerPoint(k) <= n * PerPoint(k);
  }

  // Every vertex is drawn: each point's vertices are corners of a segment's triangles.
  lemma {:induction false} EveryVertexIsDrawn(k: Stroke, base: int, n: int, count: int, i: int, s: int)
    requires 2 <= n && n - 1 <= count <= n && 0 <= i < n && 0 <= s < PerPoint(k)
    ensures base + PerPoint(k) * i + s in StrokeIndices(k, base, n, count)
  {
    hide Segment, StrokeIndices;
    var seg := if i == 0 then 0 else i - 1;
    var a, b := base + PerPoint(k) * seg, base + PerPoint(k) * Next(seg, n);
    SegmentDraws(k, a, b, s);
    SegmentIsThere(k, base, n, count, seg, base + PerPoint(k) * i + s);
  }

  lemma SegmentDraws(k: Stroke, a: int, b: int, s: int)
    requires 0 <= s < PerPoint(k)
    ensures a + s in Segment(k, a, b) && b + s in Segment(k, a, b)
  {
    var r := Segment(k, a, b);
    if k.Thin? {
      assert r[1] == a && r[7] == a + 1 && r[2] == a + 2 && r[0] == b && r[6] == b + 1 && r[4] == b + 2;
    } else {
      assert r[8] == a && r[1] == a + 1 && r[2] == a + 2 && r[14] == a + 3;
      assert r[10] == b && r[0] == b + 1 && r[4] == b + 2 && r[16] == b + 3;
    }
  }

  lemma {:induction false} SegmentIsThere(k: Stroke, base: int, n: int, count: int, seg: int, v: int)
    requires 0 <= seg < count && v in Segment(k, base + PerPoint(k) * seg, base + PerPoint(k) * Next(seg, n))
    ensures v in StrokeIndices(k, base, n, count)
    decreases count
  {
    hide Segment;
    if seg < count - 1 {
      SegmentIsThere(k, base, n, count - 1, seg, v);
    }
  }

  // --- The drawing code ------------------------------------------------------------

  // One normal for each segment; an open line repeats the last one for its last point.
  method Normals(n: int, closed: bool) returns (normals: array<Option<int>>)
    requires 2 <= n
    ensures fresh(normals) && normals.Length == n
    ensures forall i :: 0 <= i < n ==> normals[i] == Some(After(i, n, closed))
  {
    normals := new Option<int>[n](i => None);
    for i1 := 0 to Count(n, closed)
      invariant forall i :: 0 <= i < i1 ==> normals[i] == Some(i)
    {
      normals[i1] := Some(i1);
    }
    if !closed {
      normals[n - 1] := normals[n - 2];
    }
  }

  // The offset vertices of one point: a row of the temporary buffer.
  method Join(temp: array2<Option<Vertex>>, point: int, before: Option<int>, after: Option<int>)
    requires 0 <= point < temp.Length0 && before.Some? && after.Some?
    modifies temp
    ensures forall i, s :: 0 <= i < temp.Length0 && 0 <= s < temp.Length1 ==>
              temp[i, s] == if i == point then Some(Offset(i, before.value, after.value, s)) else old(temp[i, s])
  {
    forall s | 0 <= s < temp.Length1 {
      temp[point, s] := Some(Offset(point, before.value, after.value, s));
    }
  }

  ghost predicate Joined(temp: array2<Option<Vertex>>, i: int, n: int, closed: bool)
    requires 0 <= i < temp.Length0
    reads temp
  {
    forall s :: 0 <= s < temp.Length1 ==>
      temp[i, s] == Some(Offset(i, Before(i, n, closed), After(i, n, closed), s))
  }

  // Writes the indices of one segment at the write pointer.
  method WriteSegment(idx: array<int>, w: int, k: Stroke, a: int, b: int)
    requires 0 <= w && w + |Segment(k, a, b)| <= idx.Length
    modifies idx
    ensures idx[..w + |Segment(k, a, b)|] == old(idx[..w]) + Segment(k, a, b)
  {
    var seg := Segment(k, a, b);
    forall j | 0 <= j < |seg| {
      idx[w + j] := seg[j];
    }
    assert idx[w..w + |seg|] == seg;
    assert idx[..w] == old(idx[..w]);
    assert idx[..w + |seg|] == idx[..w] + idx[w..w + |seg|];
  }

  // An anti-aliased stroke. The vertex buffer is a row for each point.
  method StrokeSmooth(k: Stroke, n: int, closed: bool, base: int, idx: array<int>, vtx: array2<Option<Vertex>>)
    requires 2 <= n && idx.Length == Count(n, closed) * (if k.Thin? then 12 else 18)
    requires vtx.Length0 == n && vtx.Length1 == PerPoint(k)
    modifies idx, vtx
    ensures idx[..] == StrokeIndices(k, base, n, Count(n, closed))
    ensures forall i, s :: 0 <= i < n && 0 <= s < PerPoint(k) ==> vtx[i, s] == Some(StrokeVertex(k, n, closed, i, s))
  {
    hide Segment;
    var normals := Normals(n, closed);
    var temp := new Option<Vertex>[n, Sides(k)]((i, s) => None);
    if !closed {
      Join(temp, 0, normals[0], normals[0]);
      Join(temp, n - 1, normals[n - 1], normals[n - 1]);
    }
    WriteJoints(k, n, closed, base, idx, normals, temp);
    WriteVertices(k, n, closed, temp, vtx);
  }

  method WriteVertices(k: Stroke, n: int, closed: bool, temp: array2<Option<Vertex>>, vtx: array2<Option<Vertex>>)
    requires 2 <= n && temp.Length0 == vtx.Length0 == n && temp.Length1 == Sides(k) && vtx.Length1 == PerPoint(k)
    requires temp != vtx && forall i :: 0 <= i < n ==> Joined(temp, i, n, closed)
    modifies vtx
    ensures forall i, s :: 0 <= i < n && 0 <= s < PerPoint(k) ==> vtx[i, s] == Some(StrokeVertex(k, n, closed, i, s))
  {
    for i := 0 to n
      invariant forall j, s :: 0 <= j < i && 0 <= s < PerPoint(k) ==>
                vtx[j, s] == Some(StrokeVertex(k, n, closed, j, s))
    {
      assert Joined(temp, i, n, closed);
      forall s | 0 <= s < PerPoint(k) {
        vtx[i, s] := if k.Thick? then temp[i, s] else if s == 0 then Some(OnLine(i)) else temp[i, s - 1];
      }
    }
  }

  method WriteJoints(k: Stroke, n: int, closed: bool, base: int, idx: array<int>,
                     normals: array<Option<int>>, temp: array2<Option<Vertex>>)
    requires 2 <= n && idx.Length == Count(n, closed) * (if k.Thin? then 12 else 18)
    requires normals.Length == n && forall i :: 0 <= i < n ==> normals[i] == Some(After(i, n, closed))
    requires temp.Length0 == n && (!closed ==> Joined(temp, 0, n, closed) && Joined(temp, n - 1, n, closed))
    modifies idx, temp
    ensures idx[..] == StrokeIndices(k, base, n, Count(n, closed))
    ensures forall i :: 0 <= i < n ==> Joined(temp, i, n, closed)
  {
    hide Segment, Joined;
    var idx1, w := base, 0;
    for i1 := 0 to Count(n, closed)
      invariant w == i1 * (if k.Thin? then 12 else 18) && (i1 < n ==> idx1 == base + PerPoint(k) * i1)
      invariant idx[..w] == StrokeIndices(k, base, n, i1)
      invariant forall i :: 1 <= i < n && i <= i1 ==> Joined(temp, i, n, closed)
      invariant i1 == n || !closed ==> Joined(temp, 0, n, closed)
      invariant !closed ==> Joined(temp, n - 1, n, closed)
    {
      var i2 := if i1 + 1 == n then 0 else i1 + 1;
      var idx2 := if i1 + 1 == n then base else idx1 + PerPoint(k);
      JoinMore(temp, i2, n, closed, normals[i1], normals[i2]);
      assert idx2 == base + PerPoint(k) * Next(i1, n);
      WriteSegment(idx, w, k, idx1, idx2);
      w := w + |Segment(k, idx1, idx2)|;
      idx1 := idx2;
    }
    assert idx[..w] == idx[..];
  }

  method JoinMore(temp: array2<Option<Vertex>>, point: int, n: int, closed: bool, before: Option<int>,
                  after: Option<int>)
    requires 0 <= point < n == temp.Length0
    requires before == Some(Before(point, n, closed)) && after == Some(After(point, n, closed))
    modifies temp
    ensures Joined(temp, point, n, closed)
    ensures forall i :: 0 <= i < n && old(Joined(temp, i, n, closed)) ==> Joined(temp, i, n, closed)
  {
    Join(temp, point, before, after);
  }

  // --- Filled polygons -----------------------------------------------------------------

  // A fan over the inner vertices, and a rim of two triangles for each side. With smooth edges each
  // point has an inner and an outer vertex, else only one.
  function FanIndices(base: int, n: int, step: int): (r: seq<int>)
    requires 2 <= n
    ensures |r| == (n - 2) * 3
    decreases n
  {
    if n == 2 then [] else FanIndices(base, n - 1, step) + [base, base + (n - 2) * step, base + (n - 1) * step]
  }

  function Rim(inner: int, i0: int, i1: int): (r: seq<int>)
    ensures |r| == 6
  {
    [inner + i1 * 2, inner + i0 * 2, inner + 1 + i0 * 2, inner + 1 + i0 * 2, inner + 1 + i1 * 2, inner + i1 * 2]
  }

  function RimIndices(inner: int, n: int, count: int): (r: seq<int>)
    requires 0 <= count
    ensures |r| == count * 6
    decreases count
  {
    if count == 0 then []
    else RimIndices(inner, n, count - 1) + Rim(inner, if count == 1 then n - 1 else count - 2, count - 1)
  }

  lemma {:induction false} FanFits(base: int, n: int, step: int, bound: int)
    requires 2 <= n && 1 <= step && base + n * step <= bound
    ensures Within(FanIndices(base, n, step), base, bound)
    decreases n
  {
    if n > 2 {
      FanReach(n, step);
      FanFits(base, n - 1, step, bound);
    }
  }

  lemma FanReach(n: int, step: int)
    requires 2 <= n && 1 <= step
    ensures 0 <= (n - 2) * step < (n - 1) * step < n * step
  {
    assert n * step == (n - 1) * step + step && (n - 1) * step == (n - 2) * step + step;
  }

  lemma {:induction false} RimFits(inner: int, n: int, count: int)
    requires 3 <= n && 0 <= count <= n
    ensures Within(RimIndices(inner, n, count), inner, inner + n * 2)
    decreases count
  {
    if count > 0 {
      RimFits(inner, n, count - 1);
    }
  }

  method WriteThree(idx: array<int>, w: int, a: int, b: int, c: int)
    requires 0 <= w && w + 3 <= idx.Length
    modifies idx
    ensures idx[..w + 3] == old(idx[..w]) + [a, b, c]
  {
    idx[w], idx[w + 1], idx[w + 2] := a, b, c;
    assert idx[..w + 3] == idx[..w] + [a, b, c];
  }

  method WriteFan(idx: array<int>, base: int, n: int, step: int) returns (w: int)
    requires 2 <= n && (n - 2) * 3 <= idx.Length
    modifies idx
    ensures w == (n - 2) * 3 && idx[..w] == FanIndices(base, n, step)
  {
    w := 0;
    for i := 2 to n
      invariant w == (i - 2) * 3 && idx[..w] == FanIndices(base, i, step)
    {
      WriteThree(idx, w, base, base + (i - 1) * step, base + i * step);
      w := w + 3;
    }
  }

  // Each normal is that of the side from its point to the next.
  method FillNormals(n: int) returns (normals: array<Option<int>>)
    requires 3 <= n
    ensures fresh(normals) && normals.Length == n
    ensures forall i :: 0 <= i < n ==> normals[i] == Some(i)
  {
    normals := new Option<int>[n](i => None);
    var i0 := n - 1;
    for i1 := 0 to n
      invariant i0 == if i1 == 0 then n - 1 else i1 - 1
      invariant forall i :: 0 <= i < i1 - 1 || (i == n - 1 && i1 > 0) ==> normals[i] == Some(i)
    {
      normals[i0] := Some(i0);
      i0 := i1;
    }
  }

  method WriteRim(idx: array<int>, w: int, base: int, i0: int, i1: int)
    requires 0 <= w && w + 6 <= idx.Length
    modifies idx
    ensures idx[..w + 6] == old(idx[..w]) + Rim(base, i0, i1)
  {
    WriteThree(idx, w, base + i1 * 2, base + i0 * 2, base + 1 + i0 * 2);
    WriteThree(idx, w + 3, base + 1 + i0 * 2, base + 1 + i1 * 2, base + i1 * 2);
  }

  // An anti-aliased fill: all the room reserved is used, and each point's two vertices lie along
  // the average of the normals of its own two sides.
  method FillSmooth(n: int, base: int, idx: array<int>, vtx: array2<Option<Vertex>>)
    requires 3 <= n && idx.Length == (n - 2) * 3 + n * 6 && vtx.Length0 == n && vtx.Length1 == 2
    modifies idx, vtx
    ensures idx[..] == FanIndices(base, n, 2) + RimIndices(base, n, n)
    ensures forall i, s :: 0 <= i < n && 0 <= s < 2 ==>
              vtx[i, s] == Some(Offset(i, Before(i, n, true), After(i, n, true), s))
  {
    hide Feathered;
    var w := WriteFan(idx, base, n, 2);
    var normals := FillNormals(n);
    ghost var fan := FanIndices(base, n, 2);
    hide FanIndices, Rim;
    var i0 := n - 1;
    for i1 := 0 to n
      invariant i0 == (if i1 == 0 then n - 1 else i1 - 1) && w == |fan| + i1 * 6
      invariant idx[..w] == fan + RimIndices(base, n, i1)
      invariant forall i :: 0 <= i < n ==> normals[i] == Some(i)
      invariant forall i :: 0 <= i < i1 ==> Feathered(vtx, i, n)
    {
      Feather(vtx, i1, n, normals[i0], normals[i1]);
      WriteRim(idx, w, base, i0, i1);
      w := w + 6;
      i0 := i1;
    }
    assert idx[..w] == idx[..];
    FeatheredMeans(vtx, n);
  }

  // Both vertices of a point lie along the average of the normals of its two sides.
  ghost predicate Feathered(vtx: array2<Option<Vertex>>, i: int, n: int)
    requires 0 <= i < n == vtx.Length0 && vtx.Length1 == 2
    reads vtx
  {
    forall s :: 0 <= s < 2 ==> vtx[i, s] == Some(Offset(i, Before(i, n, true), After(i, n, true), s))
  }

  lemma FeatheredMeans(vtx: array2<Option<Vertex>>, n: int)
    requires n == vtx.Length0 && vtx.Length1 == 2 && forall i :: 0 <= i < n ==> Feathered(vtx, i, n)
    ensures forall i, s :: 0 <= i < n && 0 <= s < 2 ==>
              vtx[i, s] == Some(Offset(i, Before(i, n, true), After(i, n, true), s))
  {
    forall i, s | 0 <= i < n && 0 <= s < 2
      ensures vtx[i, s] == Some(Offset(i, Before(i, n, true), After(i, n, true), s))
    {
      assert Feathered(vtx, i, n);
    }
  }

  method Feather(vtx: array2<Option<Vertex>>, i: int, n: int, before: Option<int>, after: Option<int>)
    requires 0 <= i < n == vtx.Length0 && vtx.Length1 == 2
    requires before == Some(Before(i, n, true)) && after == Some(After(i, n, true))
    modifies vtx
    ensures Feathered(vtx, i, n)
    ensures forall j :: 0 <= j < n && j != i && old(Feathered(vtx, j, n)) ==> Feathered(vtx, j, n)
  {
    vtx[i, 0] := Some(Offset(i, before.value, after.value, 0));
    vtx[i, 1] := Some(Offset(i, before.value, after.value, 1));
  }

  method FillPlain(n: int, base: int, idx: array<int>, vtx: array<Option<Vertex>>)
    requires 3 <= n && idx.Length == (n - 2) * 3 && vtx.Length == n
    modifies idx, vtx
    ensures idx[..] == FanIndices(base, n, 1)
    ensures forall i :: 0 <= i < n ==> vtx[i] == Some(OnLine(i))
  {
    for i := 0 to n
      invariant forall j :: 0 <= j < i ==> vtx[j] == Some(OnLine(j))
    {
      vtx[i] := Some(OnLine(i));
    }
    var w := WriteFan(idx, base, n, 1);
    assert idx[..w] == idx[..];
  }

  // Without anti-aliasing every segment has four vertices of its own.
  function PlainIndices(base: int, count: int): (r: seq<int>)
    requires 0 <= count
    ensures |r| == count * 6 && Within(r, base, base + count * 4)
    decreases count
  {
    if count == 0 then []
    else
      var b := base + (count - 1) * 4;
      PlainIndices(base, count - 1) + [b, b + 1, b + 2, b, b + 2, b + 3]
  }

  function PlainVertex(n: int, i: int, s: int): Vertex {
    Offset(if s == 0 || s == 3 then i else Next(i, n), i, i, if s < 2 then 0 else 1)
  }

  method StrokePlain(n: int, closed: bool, base: int, idx: array<int>, vtx: array2<Option<Vertex>>)
    requires 2 <= n && idx.Length == Count(n, closed) * 6 && vtx.Length0 == Count(n, closed) && vtx.Length1 == 4
    modifies idx, vtx
    ensures idx[..] == PlainIndices(base, Count(n, closed))
    ensures forall i, s :: 0 <= i < Count(n, closed) && 0 <= s < 4 ==> vtx[i, s] == Some(PlainVertex(n, i, s))
  {
    hide PlainCorners;
    var current, w := base, 0;
    for i1 := 0 to Count(n, closed)
      invariant w == i1 * 6 && current == base + i1 * 4 && idx[..w] == PlainIndices(base, i1)
      invariant forall i :: 0 <= i < i1 ==> PlainCorners(vtx, i, n)
    {
      var i2 := if i1 + 1 == n then 0 else i1 + 1;
      WriteCorners(vtx, i1, i2, n);
      WriteThree(idx, w, current, current + 1, current + 2);
      WriteThree(idx, w + 3, current, current + 2, current + 3);
      w := w + 6;
      current := current + 4;
    }
    assert idx[..w] == idx[..];
    PlainCornersMean(vtx, n);
  }

  // The four corners of one segment.
  ghost predicate PlainCorners(vtx: array2<Option<Vertex>>, i: int, n: int)
    requires 0 <= i < vtx.Length0 && vtx.Length1 == 4
    reads vtx
  {
    forall s :: 0 <= s < 4 ==> vtx[i, s] == Some(PlainVertex(n, i, s))
  }

  lemma PlainCornersMean(vtx: array2<Option<Vertex>>, n: int)
    requires vtx.Length1 == 4 && forall i :: 0 <= i < vtx.Length0 ==> PlainCorners(vtx, i, n)
    ensures forall i, s :: 0 <= i < vtx.Length0 && 0 <= s < 4 ==> vtx[i, s] == Some(PlainVertex(n, i, s))
  {
    forall i, s | 0 <= i < vtx.Length0 && 0 <= s < 4 ensures vtx[i, s] == Some(PlainVertex(n, i, s)) {
      assert PlainCorners(vtx, i, n);
    }
  }

  method WriteCorners(vtx: array2<Option<Vertex>>, i1: int, i2: int, n: int)
    requires 0 <= i1 < vtx.Length0 && vtx.Length1 == 4 && i2 == Next(i1, n)
    modifies vtx
    ensures PlainCorners(vtx, i1, n)
    ensures forall j :: 0 <= j < vtx.Length0 && j != i1 && old(PlainCorners(vtx, j, n)) ==> PlainCorners(vtx, j, n)
  {
    vtx[i1, 0] := Some(Offset(i1, i1, i1, 0));
    vtx[i1, 1] := Some(Offset(i2, i1, i1, 0));
    vtx[i1, 2] := Some(Offset(i2, i1, i1, 1));
    vtx[i1, 3] := Some(Offset(i1, i1, i1, 1));
  }

  // --- Where segments meet -----------------------------------------------------------

  // The two segments of a point are segments of the line, the one that ends there and the one that
  // begins there; at an end of an open line both are the only one that touches it.
  lemma SegmentsMeet(n: int, closed: bool, i: int)
    requires 2 <= n && 0 <= i < n
    ensures var (b, a) := (Before(i, n, closed), After(i, n, closed));
            && 0 <= b < Count(n, closed) && 0 <= a < Count(n, closed)
            && (Next(b, n) == i || (!closed && i == 0 && b == 0))
            && (a == i || (!closed && i == n - 1 && Next(a, n) == i))
  {
  }

  // A line's segments join each point to the next, and the last to the first only if it is closed.
  lemma SegmentsJoin(n: int, closed: bool, i: int, j: int)
    requires 2 <= n && 0 <= i < n && 0 <= j < n
    ensures i < Count(n, closed) && Next(i, n) == j <==> j == i + 1 || (closed && i == n - 1 && j == 0)
  {
  }

  // How far a stroke's vertex is from its point along the average normal, with half the width that is
  // not feathered and the width of the feather.
  function Distance(k: Stroke, v: Vertex, half: real, feather: real): real {
    if v.OnLine? then 0.0
    else if k.Thin? then (if v.side == 0 then feather else -feather)
    else if v.side == 0 then half + feather
    else if v.side == 1 then half
    else if v.side == 2 then -half
    else -(half + feather)
  }

  // Going across, the vertices of a point follow each other from the outer edge on one side to the one
  // on the other, and lie evenly about the line.
  lemma AcrossIsInOrder(k: Stroke, n: int, closed: bool, i: int, half: real, feather: real, j: int)
    requires 0.0 < half && 0.0 < feather && 0 <= j < PerPoint(k)
    ensures var (v, w) := (StrokeVertex(k, n, closed, i, Across(k)[j]),
                           StrokeVertex(k, n, closed, i, Across(k)[PerPoint(k) - 1 - j]));
            && v.point == i && Distance(k, w, half, feather) == -Distance(k, v, half, feather)
            && (v.Offset? ==> v.before == Before(i, n, closed) && v.after == After(i, n, closed))
            && (j == 0 ==> Distance(k, v, half, feather) == (if k.Thin? then feather else half + feather))
            && (j > 0 ==> Distance(k, StrokeVertex(k, n, closed, i, Across(k)[j - 1]), half, feather)
                          > Distance(k, v, half, feather))
  {
  }

  // Going round the four vertices of a plain segment, from the start of the segment on, they change
  // point, side, point and side.
  lemma PlainIsQuad(n: int, i: int, s: int)
    requires 2 <= n && 0 <= i < n && 0 <= s < 4
    ensures var (v, w) := (PlainVertex(n, i, s), PlainVertex(n, i, (s + 1) % 4));
            && v.Offset? && w.Offset? && v.before == v.after == i
            && (v.point == i || v.point == Next(i, n)) && (v.side == 0 || v.side == 1)
            && ((v.point == w.point) <==> s % 2 == 1) && ((v.side == w.side) <==> s % 2 == 0)
            && (s == 0 ==> v.point == i && v.side == 0)
  {
  }

  // --- The triangles tile ----------------------------------------------------------

  // The corners of the t-th triangle.
  function Triangle(idx: seq<int>, t: int): set<int>
    requires 0 <= t && t * 3 + 3 <= |idx|
  {
    {idx[t * 3], idx[t * 3 + 1], idx[t * 3 + 2]}
  }

  // Two triangles make up the quad with sides a-b, b-c, c-d and d-a: they have three of its corners
  // each, all four between them, they share one diagonal, and every side is a side of just one.
  predicate Tile(t: set<int>, t': set<int>, a: int, b: int, c: int, d: int) {
    && |t| == 3 && |t'| == 3 && t + t' == {a, b, c, d}
    && (t * t' == {a, c} || t * t' == {b, d})
    && OnOne(t, t', a, b) && OnOne(t, t', b, c) && OnOne(t, t', c, d) && OnOne(t, t', d, a)
  }

  predicate OnOne(t: set<int>, t': set<int>, x: int, y: int) {
    {x, y} <= t <==> !({x, y} <= t')
  }

  // Which of a point's vertices lie next to each other, going across the line.
  function Across(k: Stroke): (vs: seq<int>)
    ensures |vs| == PerPoint(k)
  {
    if k.Thin? then [1, 0, 2] else [0, 1, 2, 3]
  }

  // The pair of triangles for the strip between the i-th and the next of them.
  function StripAt(k: Stroke, i: int): int {
    if k.Thin? then 2 - 2 * i else if i == 0 then 2 else if i == 1 then 0 else 4
  }

  // Each strip of a segment is tiled by a pair of triangles of its own.
  lemma SegmentIsTiled(k: Stroke, a: int, b: int, i: int)
    requires a + PerPoint(k) <= b || b + PerPoint(k) <= a
    requires 0 <= i < PerPoint(k) - 1
    ensures var (r, t, v, w) := (Segment(k, a, b), StripAt(k, i), Across(k)[i], Across(k)[i + 1]);
            && 0 <= t && t * 3 + 6 <= |r|
            && Tile(Triangle(r, t), Triangle(r, t + 1), a + v, a + w, b + w, b + v)
  {
    hide Tile;
    var r, t, v, w := Segment(k, a, b), StripAt(k, i), Across(k)[i], Across(k)[i + 1];
    if k.Thick? && i == 0 {
      Halves(Triangle(r, t), Triangle(r, t + 1), a + v, a + w, b + w, b + v);
    } else {
      OtherHalves(Triangle(r, t), Triangle(r, t + 1), a + v, a + w, b + w, b + v);
    }
  }

  lemma Halves(t: set<int>, t': set<int>, a: int, b: int, c: int, d: int)
    requires a != b && a != c && a != d && b != c && b != d && c != d
    requires t == {a, b, c} && t' == {a, c, d}
    ensures Tile(t, t', a, b, c, d)
  {
    assert t * t' == {a, c} && t + t' == {a, b, c, d};
  }

  lemma OtherHalves(t: set<int>, t': set<int>, a: int, b: int, c: int, d: int)
    requires a != b && a != c && a != d && b != c && b != d && c != d
    requires t == {a, b, d} && t' == {b, c, d}
    ensures Tile(t, t', a, b, c, d)
  {
    assert t * t' == {b, d} && t + t' == {a, b, c, d};
  }

  // The pairs are different ones, and there are no other triangles.
  lemma StripsAreAll(k: Stroke, t: int)
    requires 0 <= t < (if k.Thin? then 4 else 6)
    ensures exists i :: 0 <= i < PerPoint(k) - 1 && (t == StripAt(k, i) || t == StripAt(k, i) + 1)
    ensures forall i, j :: 0 <= i < j < PerPoint(k) - 1 ==>
              StripAt(k, i) != StripAt(k, j) && StripAt(k, i) % 2 == 0 && StripAt(k, j) % 2 == 0
  {
    var i := if k.Thin? then 1 - t / 2 else if t < 2 then 1 else if t < 4 then 0 else 2;
    assert t == StripAt(k, i) || t == StripAt(k, i) + 1;
  }

  // In a stroke every segment has its place, and its strips are tiled.
  lemma {:induction false} StrokeHasSegment(k: Stroke, base: int, n: int, count: int, seg: int)
    requires 0 <= seg < count
    ensures var (lo, m) := (seg * Width(k), Width(k));
            && 0 <= lo && lo + m <= |StrokeIndices(k, base, n, count)|
            && StrokeIndices(k, base, n, count)[lo..lo + m] == SegmentOf(k, base, n, seg)
    decreases count
  {
    hide *;
    StrokeLength(k, base, n, count - 1);
    StrokeMore(k, base, n, count);
    var front, own := StrokeIndices(k, base, n, count - 1), SegmentOf(k, base, n, count - 1);
    SegmentIsWide(k, base, n, count - 1);
    if seg < count - 1 {
      StrokeHasSegment(k, base, n, count - 1, seg);
      SliceInFront(front, own, seg * Width(k), Width(k));
    } else {
      SliceBehind(front, own);
    }
  }

  // The triangles from a point's vertices to those of the next, or back to the first.
  function SegmentOf(k: Stroke, base: int, n: int, seg: int): seq<int> {
    Segment(k, base + PerPoint(k) * seg, base + PerPoint(k) * Next(seg, n))
  }

  // And its strips, between the vertices of its two points, are tiled by the triangles it has there.
  lemma StrokeIsTiled(k: Stroke, base: int, n: int, seg: int, i: int)
    requires 2 <= n && 0 <= seg < n && 0 <= i < PerPoint(k) - 1
    ensures var (a, b) := (base + PerPoint(k) * seg, base + PerPoint(k) * Next(seg, n));
            var (r, t, v, w) := (SegmentOf(k, base, n, seg), StripAt(k, i), Across(k)[i], Across(k)[i + 1]);
            && 0 <= t && t * 3 + 6 <= |r|
            && Tile(Triangle(r, t), Triangle(r, t + 1), a + v, a + w, b + w, b + v)
  {
    PointsApart(k, base, n, seg);
    var (a, b) := (base + PerPoint(k) * seg, base + PerPoint(k) * Next(seg, n));
    assert SegmentOf(k, base, n, seg) == Segment(k, a, b);
    hide *;
    SegmentIsTiled(k, a, b, i);
  }

  lemma PointsApart(k: Stroke, base: int, n: int, seg: int)
    requires 2 <= n && 0 <= seg < n
    ensures var (a, b) := (base + PerPoint(k) * seg, base + PerPoint(k) * Next(seg, n));
            a + PerPoint(k) <= b || b + PerPoint(k) <= a
  {
  }

  lemma SegmentIsWide(k: Stroke, base: int, n: int, seg: int)
    ensures |SegmentOf(k, base, n, seg)| == Width(k) && 0 < Width(k)
  {
  }

  lemma SliceInFront(a: seq<int>, b: seq<int>, lo: int, m: int)
    requires 0 <= lo && 0 <= m && lo + m <= |a|
    ensures (a + b)[lo..lo + m] == a[lo..lo + m]
  {
  }

  lemma SliceBehind(a: seq<int>, b: seq<int>)
    ensures (a + b)[|a|..|a| + |b|] == b
  {
  }

  // The indices of one segment.
  function Width(k: Stroke): int {
    if k.Thin? then 12 else 18
  }

  lemma StrokeMore(k: Stroke, base: int, n: int, count: int)
    requires 1 <= count
    ensures StrokeIndices(k, base, n, count)
         == StrokeIndices(k, base, n, count - 1) + SegmentOf(k, base, n, count - 1)
  {
  }

  lemma {:induction false} StrokeLength(k: Stroke, base: int, n: int, count: int)
    requires 0 <= count
    ensures |StrokeIndices(k, base, n, count)| == count * Width(k)
    decreases count
  {
    hide Segment;
    if count > 0 {
      StrokeLength(k, base, n, count - 1);
    }
  }

  // The triangles of a fan. Each side of the polygon belongs to one of them, each spoke to the two
  // on either side of it, but the first and the last to one, and no other corners are joined.
  lemma {:induction false} FanTiles(base: int, n: int, step: int, t: int, v: int, w: int)
    requires 3 <= n && 1 <= step && 0 <= t < n - 2 && 0 <= v < w < n
    ensures {base + v * step, base + w * step} <= Triangle(FanIndices(base, n, step), t)
            <==> (1 <= v && w == v + 1 && t == v - 1) || (v == 0 && (t == w - 2 || t == w - 1))
  {
    FanTriangle(base, n, step, t);
    hide FanIndices;
    StepsDiffer(step, v, 0);
    StepsDiffer(step, v, t + 1);
    StepsDiffer(step, v, t + 2);
    StepsDiffer(step, w, 0);
    StepsDiffer(step, w, t + 1);
    StepsDiffer(step, w, t + 2);
  }

  lemma StepsDiffer(step: int, v: int, w: int)
    requires 1 <= step
    ensures v * step == w * step <==> v == w
  {
    assert w * step == v * step + (w - v) * step;
    StepsForward(step, w - v);
    StepsForward(step, v - w);
    assert (w - v) * step == -((v - w) * step);
  }

  lemma StepsForward(step: int, d: int)
    requires 1 <= step
    ensures 1 <= d ==> 1 <= d * step
  {
  }

  lemma {:induction false} FanTriangle(base: int, n: int, step: int, t: int)
    requires 3 <= n && 0 <= t < n - 2
    ensures Triangle(FanIndices(base, n, step), t) == {base, base + (t + 1) * step, base + (t + 2) * step}
    decreases n
  {
    if t < n - 3 {
      FanTriangle(base, n - 1, step, t);
    }
  }

  lemma {:induction false} RimHasSide(inner: int, n: int, count: int, i: int)
    requires 0 <= i < count
    ensures RimIndices(inner, n, count)[i * 6..i * 6 + 6] == Rim(inner, if i == 0 then n - 1 else i - 1, i)
    decreases count
  {
    hide Rim;
    if i < count - 1 {
      RimHasSide(inner, n, count - 1, i);
    }
  }

  // The rim's two triangles for a side of the polygon tile the quad between inner and outer vertices.
  lemma RimTiles(inner: int, n: int, count: int, i: int)
    requires 3 <= n && 0 <= i < count <= n
    ensures var (idx, j) := (RimIndices(inner, n, count), if i == 0 then n - 1 else i - 1);
            Tile(Triangle(idx, i * 2), Triangle(idx, i * 2 + 1),
                 inner + i * 2, inner + j * 2, inner + j * 2 + 1, inner + i * 2 + 1)
  {
    RimHasSide(inner, n, count, i);
    var j := if i == 0 then n - 1 else i - 1;
    var (a, b, c, d) := (inner + i * 2, inner + j * 2, inner + j * 2 + 1, inner + i * 2 + 1);
    assert Rim(inner, j, i) == [a, b, c, c, d, a];
    hide *;
    SixTile(RimIndices(inner, n, count), i * 2, [a, b, c, c, d, a], a, b, c, d);
  }

  lemma TrianglesAt(idx: seq<int>, t: int, six: seq<int>)
    requires 0 <= t && t * 3 + 6 <= |idx| && |six| == 6 && idx[t * 3..t * 3 + 6] == six
    ensures Triangle(idx, t) == {six[0], six[1], six[2]} && Triangle(idx, t + 1) == {six[3], six[4], six[5]}
  {
    assert idx[t * 3] == six[0] && idx[t * 3 + 1] == six[1] && idx[t * 3 + 2] == six[2];
    assert idx[t * 3 + 3] == six[3] && idx[t * 3 + 4] == six[4] && idx[t * 3 + 5] == six[5];
  }

  lemma SixTile(idx: seq<int>, t: int, six: seq<int>, a: int, b: int, c: int, d: int)
    requires 0 <= t && t * 3 + 6 <= |idx| && |six| == 6 && idx[t * 3..t * 3 + 6] == six
    requires a != b && a != c && a != d && b != c && b != d && c != d
    requires {six[0], six[1], six[2]} == {a, b, c} && {six[3], six[4], six[5]} == {a, c, d}
    ensures Tile(Triangle(idx, t), Triangle(idx, t + 1), a, b, c, d)
  {
    TrianglesAt(idx, t, six);
    hide Triangle, Tile;
    Halves(Triangle(idx, t), Triangle(idx, t + 1), a, b, c, d);
  }

  lemma {:induction false} PlainHasSegment(base: int, count: int, i: int)
    requires 0 <= i < count
    ensures var b := base + i * 4;
            PlainIndices(base, count)[i * 6..i * 6 + 6] == [b, b + 1, b + 2, b, b + 2, b + 3]
    decreases count
  {
    if i < count - 1 {
      PlainHasSegment(base, count - 1, i);
    }
  }

  // So do the two of a segment without anti-aliasing.
  lemma PlainTiles(base: int, count: int, i: int)
    requires 0 <= i < count
    ensures var (idx, b) := (PlainIndices(base, count), base + i * 4);
            Tile(Triangle(idx, i * 2), Triangle(idx, i * 2 + 1), b, b + 1, b + 2, b + 3)
  {
    PlainHasSegment(base, count, i);
    var b := base + i * 4;
    hide *;
    SixTile(PlainIndices(base, count), i * 2, [b, b + 1, b + 2, b, b + 2, b + 3], b, b + 1, b + 2, b + 3);
  }

  // --- Indices of sixteen bits ---------------------------------------------------------

  // What an index buffer of sixteen bits keeps.
  function Cut(idx: seq<int>): seq<int> {
    seq(|idx|, j requires 0 <= j < |idx| => idx[j] % 0x10000)
  }

  // Indices that use the last of the vertices reserved survive exactly when that one does.
  lemma CutIff(idx: seq<int>, base: int, bound: int)
    requires 0 <= base < bound && Within(idx, base, bound) && bound - 1 in idx
    ensures Cut(idx) == idx <==> bound <= 0x10000
  {
    var j :| 0 <= j < |idx| && idx[j] == bound - 1;
    if bound <= 0x10000 {
      forall k | 0 <= k < |idx| ensures Cut(idx)[k] == idx[k] {
      }
    } else {
      assert Cut(idx)[j] < 0x10000 <= idx[j];
    }
  }

  lemma StrokeSurvivesIff(k: Stroke, base: int, n: int, closed: bool)
    requires 2 <= n && 0 <= base
    ensures var idx := StrokeIndices(k, base, n, Count(n, closed));
            Cut(idx) == idx <==> base + n * PerPoint(k) <= 0x10000
  {
    var count := Count(n, closed);
    assert n - 1 <= count <= n;
    hide *;
    StrokeIndicesFit(k, base, n, count);
    EveryVertexIsDrawn(k, base, n, count, n - 1, PerPoint(k) - 1);
    LastVertex(k, n);
    CutIff(StrokeIndices(k, base, n, count), base, base + n * PerPoint(k));
  }

  lemma LastVertex(k: Stroke, n: int)
    requires 1 <= n
    ensures PerPoint(k) * (n - 1) + (PerPoint(k) - 1) == n * PerPoint(k) - 1 && 0 < n * PerPoint(k)
  {
  }

  lemma PlainStrokeSurvivesIff(base: int, count: int)
    requires 1 <= count && 0 <= base
    ensures Cut(PlainIndices(base, count)) == PlainIndices(base, count) <==> base + count * 4 <= 0x10000
  {
    var idx := PlainIndices(base, count);
    assert idx[|idx| - 1] == base + count * 4 - 1;
    CutIff(idx, base, base + count * 4);
  }

  lemma PlainFillSurvivesIff(base: int, n: int)
    requires 3 <= n && 0 <= base
    ensures Cut(FanIndices(base, n, 1)) == FanIndices(base, n, 1) <==> base + n <= 0x10000
  {
    var idx := FanIndices(base, n, 1);
    FanFits(base, n, 1, base + n);
    assert idx[|idx| - 1] == base + n - 1;
    CutIff(idx, base, base + n);
  }

  lemma SmoothFillSurvivesIff(base: int, n: int)
    requires 3 <= n && 0 <= base
    ensures var idx := FanIndices(base, n, 2) + RimIndices(base, n, n);
            Cut(idx) == idx <==> base + n * 2 <= 0x10000
  {
    var fan, rim := FanIndices(base, n, 2), RimIndices(base, n, n);
    FanFits(base, n, 2, base + n * 2);
    RimFits(base, n, n);
    assert rim[|rim| - 2] == base + n * 2 - 1;
    hide FanIndices, RimIndices;
    assert (fan + rim)[|fan| + |rim| - 2] == rim[|rim| - 2];
    CutIff(fan + rim, base, base + n * 2);
  }
}
