/** Properties of the lathe geometry: where each vertex lands, which
vertices each face references, how many faces and UV triplets there are,
the order faces are pushed in, seam closure and the coordinate ranges. */
module LatheLayout {
  import opened Lathe

  lemma MulMonotone(a: nat, b: nat, c: nat)
    requires a <= b
    ensures a * c <= b * c
    ensures c * a <= c * b
  {
  }

  /** Cutting a + b at a length within a is cutting a. */
  lemma PrefixOfAppend<T>(a: seq<T>, b: seq<T>, k: nat)
    requires k <= |a|
    ensures (a + b)[..k] == a[..k]
  {
  }

  /** Concatenation is associative. */
  lemma AppendAssoc<T>(a: seq<T>, b: seq<T>, c: seq<T>)
    ensures (a + b) + c == a + (b + c)
  {
  }

  /** Counts add up over a concatenation. */
  lemma CountJoin(xs: seq<Face>, ys: seq<Face>, zs: seq<Face>, v: nat)
    requires zs == xs + ys
    ensures CountMiddle(zs, v) == CountMiddle(xs, v) + CountMiddle(ys, v)
  {
    CountMiddleAppend(xs, ys, v);
  }

  /** Rings r = S, S-1, ..., k sit in `Sweep(k)` at offset (S - r) * P. */
  lemma {:induction false} SweepLayout(grid: Grid, trig: Trig, scale: real, height: real, k: nat, r: nat, j: nat)
    requires ValidGrid(grid)
    requires k <= r <= Segments(grid) && j < PointLength(grid)
    ensures (Segments(grid) - r) * PointLength(grid) + j < |Sweep(grid, trig, scale, height, k)|
    ensures Sweep(grid, trig, scale, height, k)[(Segments(grid) - r) * PointLength(grid) + j]
            == RingVertex(grid, trig, scale, height, r, j)
    decreases Segments(grid) + 1 - k
  {
    var s, p := Segments(grid), PointLength(grid);
    var rest := Sweep(grid, trig, scale, height, k + 1);
    assert Sweep(grid, trig, scale, height, k) == rest + Ring(grid, trig, scale, height, k, p);
    assert |rest| == (s - k) * p;
    if r == k {
    } else {
      SweepLayout(grid, trig, scale, height, k + 1, r, j);
    }
  }

  /** The index P*i + j that the face loop uses for corner (i, j) holds
      sample j of ring S - i: the vertex loop runs i downwards, so the
      vertex list stores the rings in reverse angular order. */
  lemma VertexLayout(grid: Grid, trig: Trig, scale: real, height: real, i: nat, j: nat)
    requires ValidGrid(grid)
    requires i <= Segments(grid) && j < PointLength(grid)
    ensures PointLength(grid) * i + j < RingVertexCount(Segments(grid), PointLength(grid))
    ensures Vertices(grid, trig, scale, height)[PointLength(grid) * i + j]
            == RingVertex(grid, trig, scale, height, Segments(grid) - i, j)
  {
    var s, p := Segments(grid), PointLength(grid);
    SweepLayout(grid, trig, scale, height, 0, s - i, j);
    assert s - (s - i) == i;
  }

  /** The vertex list holds (S+1)*P ring vertices and the two poles. */
  lemma VertexCount(grid: Grid, trig: Trig, scale: real, height: real)
    requires ValidGrid(grid)
    ensures |Vertices(grid, trig, scale, height)| == (|grid| + 1) * |grid[0]| + 2
  {
    assert |Vertices(grid, trig, scale, height)| == RingVertexCount(Segments(grid), PointLength(grid)) + 2;
  }

  /** n * (1/n) is exactly 1. */
  lemma WholeFraction(n: nat)
    requires n >= 1
    ensures Fraction(n, n) == 1.0
  {
  }

  /** Ring S reads radius row 0, the same row ring 0 reads, so the two rings
      have the same radii and heights; when the trigonometric functions take
      the same values at a full turn and at zero they are the same vertices. */
  lemma RingSeam(grid: Grid, trig: Trig, scale: real, height: real, j: nat)
    requires ValidGrid(grid) && j < PointLength(grid)
    ensures RadiusRow(Segments(grid), Segments(grid)) == RadiusRow(Segments(grid), 0) == 0
    ensures RingVertex(grid, trig, scale, height, Segments(grid), j).y
            == RingVertex(grid, trig, scale, height, 0, j).y
    ensures trig.cos(1.0) == trig.cos(0.0) && trig.sin(1.0) == trig.sin(0.0) ==>
              RingVertex(grid, trig, scale, height, Segments(grid), j)
              == RingVertex(grid, trig, scale, height, 0, j)
  {
    WholeFraction(Segments(grid));
    assert Fraction(Segments(grid), Segments(grid)) == 1.0;
    assert Fraction(0, Segments(grid)) == 0.0;
  }

  /** The first ring pushed (ring S, at indices 0 .. P-1) coincides with the
      last one (ring 0, at indices S*P .. S*P+P-1) when the trigonometric
      functions agree at a full turn and at zero: the seam closes. */
  lemma SeamClosed(grid: Grid, trig: Trig, scale: real, height: real, j: nat)
    requires ValidGrid(grid) && j < PointLength(grid)
    requires trig.cos(1.0) == trig.cos(0.0) && trig.sin(1.0) == trig.sin(0.0)
    ensures Segments(grid) * PointLength(grid) + j < |Vertices(grid, trig, scale, height)|
    ensures Vertices(grid, trig, scale, height)[j]
            == Vertices(grid, trig, scale, height)[Segments(grid) * PointLength(grid) + j]
  {
    var s, p := Segments(grid), PointLength(grid);
    RingSeam(grid, trig, scale, height, j);
    VertexLayout(grid, trig, scale, height, 0, j);
    VertexLayout(grid, trig, scale, height, s, j);
    assert p * s == s * p;
  }

  /** The height of sample j is height*scale*j/(P-1): zero at the bottom
      sample, height*scale at the top sample, the y values of the two poles. */
  lemma SampleHeights(grid: Grid, trig: Trig, scale: real, height: real)
    requires ValidGrid(grid)
    ensures forall j :: 0 <= j < PointLength(grid) ==>
              SampleY(scale, height, j, PointLength(grid))
              == height * scale * (j as real) / ((PointLength(grid) - 1) as real)
    ensures SampleY(scale, height, 0, PointLength(grid)) == 0.0
            == Vertices(grid, trig, scale, height)[BottomPole(Segments(grid), PointLength(grid))].y
    ensures SampleY(scale, height, PointLength(grid) - 1, PointLength(grid)) == height * scale
            == Vertices(grid, trig, scale, height)[TopPole(Segments(grid), PointLength(grid))].y
  {
    var p := PointLength(grid);
    WholeFraction(p - 1);
    assert SampleY(scale, height, p - 1, p) == height * scale * Fraction(p - 1, p - 1);
  }

  /** The vertex v with every coordinate multiplied by k. */
  function Scaled(k: real, v: Vertex): Vertex
  {
    Vertex(k * v.x, k * v.y, k * v.z)
  }

  /** The vertex v with its y coordinate multiplied by k. */
  function Stretched(k: real, v: Vertex): Vertex
  {
    Vertex(v.x, k * v.y, v.z)
  }

  /** Multiplying scale by k multiplies every coordinate of a ring vertex by k. */
  lemma RingVertexScaled(grid: Grid, trig: Trig, scale: real, height: real, k: real, i: nat, j: nat)
    requires ValidGrid(grid)
    requires i <= Segments(grid) && j < PointLength(grid)
    ensures RingVertex(grid, trig, k * scale, height, i, j) == Scaled(k, RingVertex(grid, trig, scale, height, i, j))
  {
    var r := grid[RadiusRow(Segments(grid), i)][j];
    var c, sn := trig.cos(Fraction(i, Segments(grid))), trig.sin(Fraction(i, Segments(grid)));
    assert (k * scale) * c * r == k * (scale * c * r);
    assert (k * scale) * sn * r == k * (scale * sn * r);
    assert height * (k * scale) * (j as real) * Inverse(PointLength(grid) - 1)
        == k * (height * scale * (j as real) * Inverse(PointLength(grid) - 1));
  }

  /** Multiplying scale by k multiplies every coordinate of the vertex at
      ring position (i, j) by k. */
  lemma ScaleLinear(grid: Grid, trig: Trig, scale: real, height: real, k: real, i: nat, j: nat)
    requires ValidGrid(grid)
    requires i <= Segments(grid) && j < PointLength(grid)
    ensures PointLength(grid) * i + j < RingVertexCount(Segments(grid), PointLength(grid))
    ensures Vertices(grid, trig, k * scale, height)[PointLength(grid) * i + j]
            == Scaled(k, Vertices(grid, trig, scale, height)[PointLength(grid) * i + j])
  {
    VertexLayout(grid, trig, scale, height, i, j);
    VertexLayout(grid, trig, k * scale, height, i, j);
    RingVertexScaled(grid, trig, scale, height, k, Segments(grid) - i, j);
  }

  /** The top pole's height scales linearly with scale and with height. */
  lemma PolesScaled(grid: Grid, trig: Trig, scale: real, height: real, k: real)
    requires ValidGrid(grid)
    ensures Vertices(grid, trig, k * scale, height)[TopPole(Segments(grid), PointLength(grid))].y
            == k * Vertices(grid, trig, scale, height)[TopPole(Segments(grid), PointLength(grid))].y
    ensures Vertices(grid, trig, scale, k * height)[TopPole(Segments(grid), PointLength(grid))].y
            == k * Vertices(grid, trig, scale, height)[TopPole(Segments(grid), PointLength(grid))].y
  {
    assert height * (k * scale) == k * (height * scale);
    assert (k * height) * scale == k * (height * scale);
  }

  /** Multiplying height by k multiplies the y coordinate of a ring vertex by
      k and leaves x and z alone. */
  lemma RingVertexHeightScaled(grid: Grid, trig: Trig, scale: real, height: real, k: real, i: nat, j: nat)
    requires ValidGrid(grid)
    requires i <= Segments(grid) && j < PointLength(grid)
    ensures RingVertex(grid, trig, scale, k * height, i, j) == Stretched(k, RingVertex(grid, trig, scale, height, i, j))
  {
    assert (k * height) * scale * (j as real) * Inverse(PointLength(grid) - 1)
        == k * (height * scale * (j as real) * Inverse(PointLength(grid) - 1));
  }

  /** Multiplying height by k multiplies the y coordinate of the vertex at
      ring position (i, j) by k, and leaves x and z alone. */
  lemma HeightLinear(grid: Grid, trig: Trig, scale: real, height: real, k: real, i: nat, j: nat)
    requires ValidGrid(grid)
    requires i <= Segments(grid) && j < PointLength(grid)
    ensures PointLength(grid) * i + j < RingVertexCount(Segments(grid), PointLength(grid))
    ensures Vertices(grid, trig, scale, k * height)[PointLength(grid) * i + j]
            == Stretched(k, Vertices(grid, trig, scale, height)[PointLength(grid) * i + j])
  {
    VertexLayout(grid, trig, scale, height, i, j);
    VertexLayout(grid, trig, scale, k * height, i, j);
    RingVertexHeightScaled(grid, trig, scale, height, k, Segments(grid) - i, j);
  }

  /** An all-zero radius grid collapses every ring vertex onto the y axis. */
  lemma ZeroRadiiOnAxis(grid: Grid, trig: Trig, scale: real, height: real, i: nat, j: nat)
    requires ValidGrid(grid)
    requires forall r, q :: 0 <= r < |grid| && 0 <= q < |grid[r]| ==> grid[r][q] == 0.0
    requires i <= Segments(grid) && j < PointLength(grid)
    ensures PointLength(grid) * i + j < RingVertexCount(Segments(grid), PointLength(grid))
    ensures Vertices(grid, trig, scale, height)[PointLength(grid) * i + j].x == 0.0
    ensures Vertices(grid, trig, scale, height)[PointLength(grid) * i + j].z == 0.0
  {
    VertexLayout(grid, trig, scale, height, i, j);
  }

  /** A face that is a proper triangle of the vertex list: three distinct
      indices, side corners among the ring vertices, and the middle index
      either a ring vertex or one of the two poles. */
  predicate WellFormed(s: nat, p: nat, f: Face)
  {
    && f.a != f.b && f.b != f.c && f.a != f.c
    && f.a < RingVertexCount(s, p) && f.c < RingVertexCount(s, p)
    && (f.b < RingVertexCount(s, p) || f.b == BottomPole(s, p) || f.b == TopPole(s, p))
  }

  lemma QuadWellFormed(s: nat, p: nat, i: nat, j: nat)
    requires p >= 2 && i < s && j < p - 1
    ensures forall f :: f in QuadFaces(s, p, i, j) ==> WellFormed(s, p, f)
  {
    MulMonotone(i + 1, s, p);
    assert j + 1 + p * i + p < RingVertexCount(s, p);
  }

  lemma {:induction false} RowWellFormed(s: nat, p: nat, i: nat, n: nat)
    requires p >= 2 && i < s && n <= p - 1
    ensures forall f :: f in RowFaces(s, p, i, n) ==> WellFormed(s, p, f)
  {
    if n > 0 {
      RowWellFormed(s, p, i, n - 1);
      QuadWellFormed(s, p, i, n - 1);
    }
  }

  lemma {:induction false} GridWellFormed(s: nat, p: nat, m: nat)
    requires p >= 2 && m <= s
    ensures forall f :: f in GridFaces(s, p, m) ==> WellFormed(s, p, f)
  {
    if m > 0 {
      GridWellFormed(s, p, m - 1);
      RowWellFormed(s, p, m - 1, p - 1);
    }
  }

  /** Every face index is a valid index of the vertex list, and every face
      has three pairwise-distinct corners. */
  lemma FaceIndicesValid(grid: Grid, trig: Trig, scale: real, height: real)
    requires ValidGrid(grid)
    ensures forall f :: f in Build(grid, trig, scale, height).faces ==>
              && f.a < |Build(grid, trig, scale, height).vertices|
              && f.b < |Build(grid, trig, scale, height).vertices|
              && f.c < |Build(grid, trig, scale, height).vertices|
              && f.a != f.b && f.b != f.c && f.a != f.c
  {
    GridWellFormed(Segments(grid), PointLength(grid), Segments(grid));
  }

  /** The largest side index, corner c of the last quad, is the last ring
      vertex (S+1)*P - 1. */
  lemma LargestSideIndex(s: nat, p: nat)
    requires s >= 1 && p >= 2
    ensures QuadFaces(s, p, s - 1, p - 2)[1].b == RingVertexCount(s, p) - 1
  {
    assert (p - 2) + 1 + p * (s - 1) + p == (s + 1) * p - 1;
  }

  /** With two samples per ring the single band of a ring pair is both the
      bottom and the top band, so its quad gets both caps. */
  lemma TwoSampleQuadHasBothCaps(s: nat, i: nat)
    ensures |QuadFaces(s, 2, i, 0)| == 4
    ensures QuadFaces(s, 2, i, 0)[2].b == BottomPole(s, 2)
    ensures QuadFaces(s, 2, i, 0)[3].b == TopPole(s, 2)
  {
  }

  /** The number of faces whose middle index is v. */
  function CountMiddle(fs: seq<Face>, v: nat): (n: nat)
    ensures n <= |fs|
  {
    if |fs| == 0 then 0
    else (if fs[0].b == v then 1 else 0) + CountMiddle(fs[1..], v)
  }

  lemma {:induction false} CountMiddleAppend(xs: seq<Face>, ys: seq<Face>, v: nat)
    ensures CountMiddle(xs + ys, v) == CountMiddle(xs, v) + CountMiddle(ys, v)
    decreases |xs|
  {
    if |xs| == 0 {
      assert xs + ys == ys;
    } else {
      assert (xs + ys)[1..] == xs[1..] + ys;
      CountMiddleAppend(xs[1..], ys, v);
    }
  }

  lemma QuadPoleCount(s: nat, p: nat, i: nat, j: nat)
    requires p >= 2 && i < s && j < p - 1
    ensures CountMiddle(QuadFaces(s, p, i, j), BottomPole(s, p)) == (if j == 0 then 1 else 0)
    ensures CountMiddle(QuadFaces(s, p, i, j), TopPole(s, p)) == (if j == p - 2 then 1 else 0)
  {
    var a := j + p * i;
    MulMonotone(i + 1, s, p);
    assert a + 1 + p < BottomPole(s, p);
    var side := [Face(a, a + p, a + 1), Face(a + p, a + 1 + p, a + 1)];
    var bottom: seq<Face> := if j == 0 then [Face(a, BottomPole(s, p), a + p)] else [];
    var top: seq<Face> := if j == p - 2 then [Face(a + 1 + p, TopPole(s, p), a + 1)] else [];
    assert QuadFaces(s, p, i, j) == side + (bottom + top);
    CountMiddleAppend(side, bottom + top, BottomPole(s, p));
    CountMiddleAppend(side, bottom + top, TopPole(s, p));
    CountMiddleAppend(bottom, top, BottomPole(s, p));
    CountMiddleAppend(bottom, top, TopPole(s, p));
  }

  lemma {:induction false} RowPoleCount(s: nat, p: nat, i: nat, n: nat)
    requires p >= 2 && i < s && n <= p - 1
    ensures CountMiddle(RowFaces(s, p, i, n), BottomPole(s, p)) == (if n > 0 then 1 else 0)
    ensures CountMiddle(RowFaces(s, p, i, n), TopPole(s, p)) == (if n == p - 1 then 1 else 0)
  {
    if n > 0 {
      var before, quad := RowFaces(s, p, i, n - 1), QuadFaces(s, p, i, n - 1);
      RowPoleCount(s, p, i, n - 1);
      QuadPoleCount(s, p, i, n - 1);
      CountJoin(before, quad, RowFaces(s, p, i, n), BottomPole(s, p));
      CountJoin(before, quad, RowFaces(s, p, i, n), TopPole(s, p));
    }
  }

  lemma {:induction false} GridPoleCount(s: nat, p: nat, m: nat)
    requires p >= 2 && m <= s
    ensures CountMiddle(GridFaces(s, p, m), BottomPole(s, p)) == m
    ensures CountMiddle(GridFaces(s, p, m), TopPole(s, p)) == m
  {
    if m > 0 {
      var before, row := GridFaces(s, p, m - 1), RowFaces(s, p, m - 1, p - 1);
      GridPoleCount(s, p, m - 1);
      RowPoleCount(s, p, m - 1, p - 1);
      CountJoin(before, row, GridFaces(s, p, m), BottomPole(s, p));
      CountJoin(before, row, GridFaces(s, p, m), TopPole(s, p));
    }
  }

  lemma PairCountSplit(s: nat, p: nat)
    requires p >= 1
    ensures 2 * p * s == 2 * s * (p - 1) + 2 * s
  {
    var q := p - 1;
    assert 2 * (q + 1) * s == 2 * q * s + 2 * s;
  }

  lemma UvCountCommute(s: nat, p: nat)
    requires p >= 1
    ensures 2 * (p - 1) * s == 2 * s * (p - 1)
  {
  }

  /** The face list holds 2*S*(P-1) side triangles plus S bottom caps plus
      S top caps; the UV list holds one triplet per side triangle, so it is
      2*S shorter than the face list. */
  lemma FaceAndUvCounts(grid: Grid, trig: Trig, scale: real, height: real)
    requires ValidGrid(grid)
    ensures |Build(grid, trig, scale, height).faces| == 2 * |grid| * (|grid[0]| - 1) + 2 * |grid|
    ensures |Build(grid, trig, scale, height).uvs| == 2 * |grid| * (|grid[0]| - 1)
    ensures |Build(grid, trig, scale, height).faces| - |Build(grid, trig, scale, height).uvs| == 2 * |grid|
    ensures CountMiddle(Build(grid, trig, scale, height).faces, BottomPole(|grid|, |grid[0]|)) == |grid|
    ensures CountMiddle(Build(grid, trig, scale, height).faces, TopPole(|grid|, |grid[0]|)) == |grid|
  {
    var s, p := |grid|, |grid[0]|;
    var g := Build(grid, trig, scale, height);
    assert g.faces == GridFaces(s, p, s);
    assert g.uvs == GridUvs(s, p, s);
    assert |g.faces| == 2 * p * s;
    assert |g.uvs| == 2 * (p - 1) * s;
    GridPoleCount(s, p, s);
    PairCountSplit(s, p);
    UvCountCommute(s, p);
  }

  /** Where the faces of quad j start among the faces of its ring pair: two
      side faces per earlier quad plus the bottom cap of quad 0. */
  function RowOffset(j: nat): nat
  {
    2 * j + (if j > 0 then 1 else 0)
  }

  /** Where the faces of quad (i, j) start in the face list: each earlier
      ring pair contributes 2*P faces. */
  function FaceOffset(p: nat, i: nat, j: nat): nat
  {
    PairBase(p, i) + RowOffset(j)
  }

  /** Where the faces of ring pair i start: 2*P faces per earlier pair. */
  function PairBase(p: nat, i: nat): nat
  {
    2 * p * i
  }

  lemma {:induction false} RowPrefix(s: nat, p: nat, i: nat, m: nat, n: nat)
    requires p >= 2 && m <= n <= p - 1
    ensures RowFaces(s, p, i, n)[..|RowFaces(s, p, i, m)|] == RowFaces(s, p, i, m)
    decreases n - m
  {
    if m < n {
      RowPrefix(s, p, i, m, n - 1);
      var r := RowFaces(s, p, i, n - 1);
      assert |RowFaces(s, p, i, m)| <= |r|;
      PrefixOfAppend(r, QuadFaces(s, p, i, n - 1), |RowFaces(s, p, i, m)|);
    }
  }

  lemma {:induction false} GridPrefix(s: nat, p: nat, m: nat, n: nat)
    requires p >= 2 && m <= n
    ensures GridFaces(s, p, n)[..|GridFaces(s, p, m)|] == GridFaces(s, p, m)
    decreases n - m
  {
    if m < n {
      GridPrefix(s, p, m, n - 1);
      var g := GridFaces(s, p, n - 1);
      MulMonotone(m, n - 1, 2 * p);
      PrefixOfAppend(g, RowFaces(s, p, n - 1, p - 1), |GridFaces(s, p, m)|);
    }
  }

  /** Quad j's faces sit at RowOffset(j) among the faces of its ring pair. */
  lemma QuadInRow(s: nat, p: nat, i: nat, j: nat)
    requires p >= 2 && j < p - 1
    ensures RowOffset(j) + |QuadFaces(s, p, i, j)| <= |RowFaces(s, p, i, p - 1)|
    ensures RowFaces(s, p, i, p - 1)[RowOffset(j) .. RowOffset(j) + |QuadFaces(s, p, i, j)|]
            == QuadFaces(s, p, i, j)
  {
    var q := QuadFaces(s, p, i, j);
    var row := RowFaces(s, p, i, j + 1);
    var rowBefore := RowFaces(s, p, i, j);
    assert row == rowBefore + q;
    RowPrefix(s, p, i, j + 1, p - 1);
    var fullRow := RowFaces(s, p, i, p - 1);
    assert fullRow[..|row|] == row;
    assert fullRow[RowOffset(j) .. RowOffset(j) + |q|] == row[|rowBefore|..];
  }

  lemma NextPairBase(p: nat, i: nat, s: nat)
    requires i < s
    ensures PairBase(p, i + 1) == PairBase(p, i) + 2 * p
    ensures PairBase(p, i + 1) <= 2 * p * s
  {
    MulMonotone(i + 1, s, 2 * p);
  }

  /** Ring pair i's faces sit at 2*P*i in the face list. */
  lemma RowInGrid(s: nat, p: nat, i: nat)
    requires p >= 2 && i < s
    ensures PairBase(p, i) + 2 * p <= |GridFaces(s, p, s)|
    ensures GridFaces(s, p, s)[PairBase(p, i) .. PairBase(p, i) + 2 * p] == RowFaces(s, p, i, p - 1)
  {
    var base := PairBase(p, i);
    var before := GridFaces(s, p, i);
    var upto := GridFaces(s, p, i + 1);
    assert upto == before + RowFaces(s, p, i, p - 1);
    NextPairBase(p, i, s);
    GridPrefix(s, p, i + 1, s);
    var all := GridFaces(s, p, s);
    assert all[..|upto|] == upto;
    assert all[base .. base + 2 * p] == upto[|before|..];
  }

  /** The faces of quad (i, j) appear contiguously at FaceOffset(P, i, j), in
      the order (a,b,d), (b,c,d), bottom cap, top cap. */
  lemma QuadFacesInOrder(s: nat, p: nat, i: nat, j: nat)
    requires p >= 2 && i < s && j < p - 1
    ensures FaceOffset(p, i, j) + |QuadFaces(s, p, i, j)| <= |GridFaces(s, p, s)|
    ensures GridFaces(s, p, s)[FaceOffset(p, i, j) .. FaceOffset(p, i, j) + |QuadFaces(s, p, i, j)|]
            == QuadFaces(s, p, i, j)
  {
    RowInGrid(s, p, i);
    QuadInRow(s, p, i, j);
    SliceOfSlice(GridFaces(s, p, s), RowFaces(s, p, i, p - 1), QuadFaces(s, p, i, j),
                 PairBase(p, i), RowOffset(j), FaceOffset(p, i, j));
  }

  /** If ys sits at base in xs and zs sits at off in ys, then zs sits at
      base + off in xs. */
  lemma SliceOfSlice<T>(xs: seq<T>, ys: seq<T>, zs: seq<T>, base: nat, off: nat, start: nat)
    requires base + |ys| <= |xs| && xs[base .. base + |ys|] == ys
    requires off + |zs| <= |ys| && ys[off .. off + |zs|] == zs
    requires start == base + off
    ensures start + |zs| <= |xs|
    ensures xs[start .. start + |zs|] == zs
  {
    var n := |zs|;
    var lhs, rhs := xs[start .. start + n], ys[off .. off + n];
    forall k | 0 <= k < n
      ensures lhs[k] == rhs[k]
    {
      assert xs[base .. base + |ys|][off + k] == xs[base + off + k];
    }
  }

  /** Where the UV triplets of quad (i, j) start in the UV list: two per
      earlier quad, caps having none. */
  function UvOffset(p: nat, i: nat, j: nat): nat
    requires p >= 1
  {
    2 * (p - 1) * i + 2 * j
  }

  lemma {:induction false} RowUvsPrefix(s: nat, p: nat, i: nat, m: nat, n: nat)
    requires s >= 1 && p >= 2 && m <= n
    ensures RowUvs(s, p, i, n)[..|RowUvs(s, p, i, m)|] == RowUvs(s, p, i, m)
    decreases n - m
  {
    if m < n {
      RowUvsPrefix(s, p, i, m, n - 1);
      var r := RowUvs(s, p, i, n - 1);
      PrefixOfAppend(r, QuadUvs(s, p, i, n - 1), |RowUvs(s, p, i, m)|);
    }
  }

  lemma {:induction false} GridUvsPrefix(s: nat, p: nat, m: nat, n: nat)
    requires s >= 1 && p >= 2 && m <= n
    ensures GridUvs(s, p, n)[..|GridUvs(s, p, m)|] == GridUvs(s, p, m)
    decreases n - m
  {
    if m < n {
      GridUvsPrefix(s, p, m, n - 1);
      var g := GridUvs(s, p, n - 1);
      MulMonotone(m, n - 1, 2 * (p - 1));
      PrefixOfAppend(g, RowUvs(s, p, n - 1, p - 1), |GridUvs(s, p, m)|);
    }
  }

  lemma NextUvBase(p: nat, i: nat, s: nat)
    requires p >= 1 && i < s
    ensures 2 * (p - 1) * (i + 1) == 2 * (p - 1) * i + 2 * (p - 1)
    ensures 2 * (p - 1) * (i + 1) <= 2 * (p - 1) * s
  {
    MulMonotone(i + 1, s, 2 * (p - 1));
  }

  lemma QuadUvsInRow(s: nat, p: nat, i: nat, j: nat)
    requires s >= 1 && p >= 2 && j < p - 1
    ensures 2 * j + 2 <= |RowUvs(s, p, i, p - 1)|
    ensures RowUvs(s, p, i, p - 1)[2 * j .. 2 * j + 2] == QuadUvs(s, p, i, j)
  {
    var fullRow := RowUvs(s, p, i, p - 1);
    var row := RowUvs(s, p, i, j + 1);
    assert row == RowUvs(s, p, i, j) + QuadUvs(s, p, i, j);
    RowUvsPrefix(s, p, i, j + 1, p - 1);
    assert fullRow[..|row|] == row;
  }

  lemma RowUvsInGrid(s: nat, p: nat, i: nat)
    requires p >= 2 && i < s
    ensures 2 * (p - 1) * i + 2 * (p - 1) <= |GridUvs(s, p, s)|
    ensures GridUvs(s, p, s)[2 * (p - 1) * i .. 2 * (p - 1) * i + 2 * (p - 1)] == RowUvs(s, p, i, p - 1)
  {
    var base := 2 * (p - 1) * i;
    var before := GridUvs(s, p, i);
    var upto := GridUvs(s, p, i + 1);
    assert upto == before + RowUvs(s, p, i, p - 1);
    NextUvBase(p, i, s);
    GridUvsPrefix(s, p, i + 1, s);
    var all := GridUvs(s, p, s);
    assert all[..|upto|] == upto;
    assert all[base .. base + 2 * (p - 1)] == upto[|before|..];
  }

  lemma OffsetShift(p: nat, i: nat, j: nat)
    requires p >= 1
    ensures FaceOffset(p, i, j) == UvOffset(p, i, j) + 2 * i + (if j > 0 then 1 else 0)
  {
    assert 2 * p * i == 2 * (p - 1) * i + 2 * i;
  }

  /** The two UV triplets of quad (i, j) appear at UvOffset(P, i, j), while
      its faces start at FaceOffset(P, i, j): the cap faces, which carry no
      triplet, put the face list ahead of the UV list by 2*i, plus one more
      after the first quad of a ring pair. */
  lemma QuadUvsInOrder(s: nat, p: nat, i: nat, j: nat)
    requires p >= 2 && i < s && j < p - 1
    ensures UvOffset(p, i, j) + 2 <= |GridUvs(s, p, s)|
    ensures GridUvs(s, p, s)[UvOffset(p, i, j) .. UvOffset(p, i, j) + 2] == QuadUvs(s, p, i, j)
    ensures FaceOffset(p, i, j) == UvOffset(p, i, j) + 2 * i + (if j > 0 then 1 else 0)
  {
    RowUvsInGrid(s, p, i);
    QuadUvsInRow(s, p, i, j);
    SliceOfSlice(GridUvs(s, p, s), RowUvs(s, p, i, p - 1), QuadUvs(s, p, i, j),
                 2 * (p - 1) * i, 2 * j, UvOffset(p, i, j));
    OffsetShift(p, i, j);
  }

  /** 0 <= k * (1/n) <= 1 for 0 <= k <= n. */
  lemma FractionInUnit(k: nat, n: nat)
    requires 0 < n && k <= n
    ensures 0.0 <= Fraction(k, n) <= 1.0
  {
    WholeFraction(n);
    assert (k as real) * Inverse(n) <= (n as real) * Inverse(n);
  }

  /** Both coordinates of all three corners lie in [0, 1]. */
  predicate InUnitSquare(t: UvTriple)
  {
    && 0.0 <= t.p.u <= 1.0 && 0.0 <= t.p.v <= 1.0
    && 0.0 <= t.q.u <= 1.0 && 0.0 <= t.q.v <= 1.0
    && 0.0 <= t.r.u <= 1.0 && 0.0 <= t.r.v <= 1.0
  }

  /** All UV components of quad (i, j) lie in [0, 1]. */
  lemma QuadUvsInUnitSquare(s: nat, p: nat, i: nat, j: nat)
    requires s >= 1 && p >= 2 && i < s && j < p - 1
    ensures forall t :: t in QuadUvs(s, p, i, j) ==> InUnitSquare(t)
  {
    FractionInUnit(i, s);
    FractionInUnit(i + 1, s);
    FractionInUnit(j, p - 1);
    FractionInUnit(j + 1, p - 1);
    assert Fraction(i, s) + Inverse(s) == Fraction(i + 1, s);
    assert Fraction(j, p - 1) + Inverse(p - 1) == Fraction(j + 1, p - 1);
  }

  lemma {:induction false} RowUvsInUnitSquare(s: nat, p: nat, i: nat, n: nat)
    requires s >= 1 && p >= 2 && i < s && n <= p - 1
    ensures forall t :: t in RowUvs(s, p, i, n) ==> InUnitSquare(t)
  {
    if n > 0 {
      RowUvsInUnitSquare(s, p, i, n - 1);
      QuadUvsInUnitSquare(s, p, i, n - 1);
    }
  }

  lemma {:induction false} GridUvsInUnitSquare(s: nat, p: nat, m: nat)
    requires s >= 1 && p >= 2 && m <= s
    ensures forall t :: t in GridUvs(s, p, m) ==> InUnitSquare(t)
  {
    if m > 0 {
      GridUvsInUnitSquare(s, p, m - 1);
      RowUvsInUnitSquare(s, p, m - 1, p - 1);
    }
  }

  /** Every UV component of the built geometry lies in [0, 1]. */
  lemma UvsInUnitSquare(grid: Grid, trig: Trig, scale: real, height: real)
    requires ValidGrid(grid)
    ensures forall t :: t in Build(grid, trig, scale, height).uvs ==> InUnitSquare(t)
  {
    GridUvsInUnitSquare(Segments(grid), PointLength(grid), Segments(grid));
  }
}
