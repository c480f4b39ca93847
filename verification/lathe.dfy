/** The vertex, face and UV construction of THREE.CustomLatheGeometry.

A radius grid with S rings of P samples is swept around the y axis. The
vertex list holds S+1 rings (ring S re-reads radius row 0, closing the
seam) followed by two pole vertices; the face list holds two side
triangles per quad plus a cap triangle at the bottom and top band of every
ring pair; the UV list holds one triplet per side triangle only.

Math.cos and Math.sin are not modelled: a `Trig` value supplies them as
functions of the fraction of a full turn, so the angle i/S * 2*pi of the
source is passed to them as the exact rational i/S.
 */
module Lathe {

  datatype Vertex = Vertex(x: real, y: real, z: real)

  /** A triangle given by three vertex indices, in winding order. */
  datatype Face = Face(a: nat, b: nat, c: nat)

  datatype Uv = Uv(u: real, v: real)

  /** The texture coordinates of the three corners of one face. */
  datatype UvTriple = UvTriple(p: Uv, q: Uv, r: Uv)

  /** The geometry before the host library merges vertices and derives normals. */
  datatype Geometry = Geometry(vertices: seq<Vertex>, faces: seq<Face>, uvs: seq<UvTriple>)

  /** Cosine and sine of an angle given as a fraction of a full turn. */
  datatype Trig = Trig(cos: real -> real, sin: real -> real)

  /** radiiArray: row i is the radius profile at angle i/S of a turn. */
  type Grid = seq<seq<real>>

  /** The shape the construction relies on without checking it: at least one
      ring, at least two samples per ring, every ring the same length. */
  predicate ValidGrid(grid: Grid)
  {
    && |grid| >= 1
    && |grid[0]| >= 2
    && forall k :: 0 <= k < |grid| ==> |grid[k]| == |grid[0]|
  }

  /** segments */
  function Segments(grid: Grid): nat
  {
    |grid|
  }

  /** pointLength */
  function PointLength(grid: Grid): nat
    requires |grid| >= 1
  {
    |grid[0]|
  }

  /** 1.0 / n, as inverseSegments and inversePointLength are computed. */
  function Inverse(n: nat): real
    requires n > 0
  {
    1.0 / (n as real)
  }

  /** Number of ring vertices, all pushed before the poles. */
  function RingVertexCount(s: nat, p: nat): nat
  {
    (s + 1) * p
  }

  /** bottomFaceV: the index of the bottom pole vertex. */
  function BottomPole(s: nat, p: nat): nat
  {
    RingVertexCount(s, p)
  }

  /** topFaceV: the index of the top pole vertex. */
  function TopPole(s: nat, p: nat): nat
  {
    RingVertexCount(s, p) + 1
  }

  /** The height of sample j: height * scale * j * inversePointLength. */
  function SampleY(scale: real, height: real, j: nat, p: nat): real
    requires p >= 2
  {
    height * scale * (j as real) * Inverse(p - 1)
  }

  /** The radius row that ring i reads: i % segments. */
  function RadiusRow(s: nat, i: nat): (row: nat)
    requires s >= 1
    ensures row < s
    ensures i < s ==> row == i
    ensures i == s ==> row == 0
  {
    i % s
  }

  /** k * (1/n): the angle of ring k as a fraction of a full turn
      (i * inverseSegments) and the UV coordinates u0 and v0. */
  function Fraction(k: nat, n: nat): real
    requires n >= 1
  {
    (k as real) * Inverse(n)
  }

  /** Sample j of ring i, as built by the vertex loop. */
  function RingVertex(grid: Grid, trig: Trig, scale: real, height: real, i: nat, j: nat): Vertex
    requires ValidGrid(grid)
    requires i <= Segments(grid) && j < PointLength(grid)
  {
    var s := Segments(grid);
    var r := grid[RadiusRow(s, i)][j];
    Vertex(scale * trig.cos(Fraction(i, s)) * r,
           SampleY(scale, height, j, PointLength(grid)),
           scale * trig.sin(Fraction(i, s)) * r)
  }

  /** The samples j < n of ring i, in the order of the inner vertex loop. */
  function Ring(grid: Grid, trig: Trig, scale: real, height: real, i: nat, n: nat): (ring: seq<Vertex>)
    requires ValidGrid(grid)
    requires i <= Segments(grid) && n <= PointLength(grid)
    ensures |ring| == n
    ensures forall j :: 0 <= j < n ==> ring[j] == RingVertex(grid, trig, scale, height, i, j)
  {
    if n == 0 then []
    else Ring(grid, trig, scale, height, i, n - 1) + [RingVertex(grid, trig, scale, height, i, n - 1)]
  }

  /** The complete rings S, S-1, ..., k, in the order the outer vertex loop
      pushes them (it counts i down from segments to 0). */
  function Sweep(grid: Grid, trig: Trig, scale: real, height: real, k: nat): (vs: seq<Vertex>)
    requires ValidGrid(grid)
    requires k <= Segments(grid) + 1
    ensures |vs| == (Segments(grid) + 1 - k) * PointLength(grid)
    decreases Segments(grid) + 1 - k
  {
    if k == Segments(grid) + 1 then []
    else
      Sweep(grid, trig, scale, height, k + 1)
        + Ring(grid, trig, scale, height, k, PointLength(grid))
  }

  /** The two pole vertices pushed after the rings. */
  function Poles(scale: real, height: real): seq<Vertex>
  {
    [Vertex(0.0, 0.0, 0.0), Vertex(0.0, height * scale, 0.0)]
  }

  /** this.vertices before mergeVertices. */
  function Vertices(grid: Grid, trig: Trig, scale: real, height: real): (vs: seq<Vertex>)
    requires ValidGrid(grid)
    ensures |vs| == RingVertexCount(Segments(grid), PointLength(grid)) + 2
    ensures vs[BottomPole(Segments(grid), PointLength(grid))] == Vertex(0.0, 0.0, 0.0)
    ensures vs[TopPole(Segments(grid), PointLength(grid))] == Vertex(0.0, height * scale, 0.0)
  {
    Sweep(grid, trig, scale, height, 0) + Poles(scale, height)
  }

  /** The faces of quad (i, j) in push order: the two side triangles split
      along the a-d diagonal, then the bottom cap when j == 0, then the top
      cap when j == P-2. The two cap conditions are independent. */
  function QuadFaces(s: nat, p: nat, i: nat, j: nat): seq<Face>
  {
    var a := j + p * i;
    var b := a + p;
    var c := a + 1 + p;
    var d := a + 1;
    [Face(a, b, d), Face(b, c, d)]
      + (if j == 0 then [Face(a, BottomPole(s, p), b)] else [])
      + (if j == p - 2 then [Face(c, TopPole(s, p), d)] else [])
  }

  /** Number of faces the first n quads of a ring pair produce. */
  function RowFaceCount(p: nat, n: nat): nat
  {
    2 * n + (if n > 0 then 1 else 0) + (if n == p - 1 then 1 else 0)
  }

  /** The faces of quads j < n of ring pair i. */
  function RowFaces(s: nat, p: nat, i: nat, n: nat): (fs: seq<Face>)
    requires p >= 2 && n <= p - 1
    ensures |fs| == RowFaceCount(p, n)
  {
    if n == 0 then []
    else RowFaces(s, p, i, n - 1) + QuadFaces(s, p, i, n - 1)
  }

  /** The faces of ring pairs i < m. */
  function GridFaces(s: nat, p: nat, m: nat): (fs: seq<Face>)
    requires p >= 2
    ensures |fs| == 2 * p * m
  {
    if m == 0 then []
    else GridFaces(s, p, m - 1) + RowFaces(s, p, m - 1, p - 1)
  }

  /** The two UV triplets of quad (i, j), one per side triangle. */
  function QuadUvs(s: nat, p: nat, i: nat, j: nat): seq<UvTriple>
    requires s >= 1 && p >= 2
  {
    var u0 := Fraction(i, s);
    var v0 := Fraction(j, p - 1);
    var u1 := u0 + Inverse(s);
    var v1 := v0 + Inverse(p - 1);
    [UvTriple(Uv(u0, v0), Uv(u1, v0), Uv(u0, v1)),
     UvTriple(Uv(u1, v0), Uv(u1, v1), Uv(u0, v1))]
  }

  /** The UV triplets of quads j < n of ring pair i. */
  function RowUvs(s: nat, p: nat, i: nat, n: nat): (us: seq<UvTriple>)
    requires s >= 1 && p >= 2
    ensures |us| == 2 * n
  {
    if n == 0 then []
    else RowUvs(s, p, i, n - 1) + QuadUvs(s, p, i, n - 1)
  }

  /** The UV triplets of ring pairs i < m. */
  function GridUvs(s: nat, p: nat, m: nat): (us: seq<UvTriple>)
    requires s >= 1 && p >= 2
    ensures |us| == 2 * (p - 1) * m
  {
    if m == 0 then []
    else GridUvs(s, p, m - 1) + RowUvs(s, p, m - 1, p - 1)
  }

  /** The geometry CustomLatheGeometry builds before its host-library calls. */
  function Build(grid: Grid, trig: Trig, scale: real, height: real): (g: Geometry)
    requires ValidGrid(grid)
  {
    var s := Segments(grid);
    var p := PointLength(grid);
    Geometry(Vertices(grid, trig, scale, height), GridFaces(s, p, s), GridUvs(s, p, s))
  }
}
