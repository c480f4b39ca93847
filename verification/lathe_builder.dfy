/** The constructor body of THREE.CustomLatheGeometry as the loops it is
written with, proved to build exactly the geometry `Lathe.Build` defines. */
module LatheBuilder {
  import opened Lathe
  import opened LatheLayout

  /** The inner vertex loop: pushes the samples of ring i. */
  method PushRing(grid: Grid, trig: Trig, scale: real, height: real, i: nat, vertices: seq<Vertex>)
    returns (vertices': seq<Vertex>)
    requires ValidGrid(grid) && i <= |grid|
    ensures vertices' == vertices + Ring(grid, trig, scale, height, i, |grid[0]|)
  {
    var segments := |grid|;
    var pointLength := |grid[0]|;
    var inversePointLength := 1.0 / ((pointLength - 1) as real);
    var inverseSegments := 1.0 / (segments as real);
    var phi := (i as real) * inverseSegments;
    assert phi == Fraction(i, segments);
    var c, s := trig.cos(phi), trig.sin(phi);
    assert inversePointLength == Inverse(pointLength - 1);
    vertices' := vertices;
    var j := 0;
    while j < pointLength
      invariant 0 <= j <= pointLength
      invariant vertices' == vertices + Ring(grid, trig, scale, height, i, j)
    {
      var r := grid[i % segments][j];
      var vertex := Vertex(scale * c * r, height * scale * (j as real) * inversePointLength, scale * s * r);
      SampleAt(grid, trig, scale, height, i, j, c, s, inversePointLength, r);
      vertices' := vertices' + [vertex];
      j := j + 1;
    }
  }

  /** The vertex the inner loop builds from the precomputed cosine, sine
      and inverse is sample j of ring i. */
  lemma SampleAt(grid: Grid, trig: Trig, scale: real, height: real, i: nat, j: nat,
                 c: real, s: real, inv: real, r: real)
    requires ValidGrid(grid) && i <= |grid| && j < |grid[0]|
    requires c == trig.cos(Fraction(i, |grid|)) && s == trig.sin(Fraction(i, |grid|))
    requires inv == Inverse(|grid[0]| - 1) && r == grid[i % |grid|][j]
    ensures Vertex(scale * c * r, height * scale * (j as real) * inv, scale * s * r)
            == RingVertex(grid, trig, scale, height, i, j)
  {
  }

  /** The vertex loops: ring i runs from segments down to 0; then the bottom
      and top pole are pushed. */
  method PushVertices(grid: Grid, trig: Trig, scale: real, height: real) returns (vertices: seq<Vertex>)
    requires ValidGrid(grid)
    ensures vertices == Vertices(grid, trig, scale, height)
  {
    var segments := |grid|;
    vertices := [];
    var i: int := segments;
    while i >= 0
      invariant -1 <= i <= segments
      invariant vertices == Sweep(grid, trig, scale, height, i + 1)
    {
      vertices := PushRing(grid, trig, scale, height, i, vertices);
      i := i - 1;
    }
    // the bottom and top pole
    vertices := vertices + [Vertex(0.0, 0.0, 0.0), Vertex(0.0, height * scale, 0.0)];
  }

  /** The body of the inner face loop for quad (i, j). */
  method PushQuad(segments: nat, pointLength: nat, i: nat, j: nat, faces: seq<Face>, uvs: seq<UvTriple>)
    returns (faces': seq<Face>, uvs': seq<UvTriple>)
    requires segments >= 1 && pointLength >= 2
    ensures faces' == faces + QuadFaces(segments, pointLength, i, j)
    ensures uvs' == uvs + QuadUvs(segments, pointLength, i, j)
  {
    var inversePointLength := 1.0 / ((pointLength - 1) as real);
    var inverseSegments := 1.0 / (segments as real);
    var np := pointLength;
    var bottomFaceV := (segments + 1) * np;
    var topFaceV := (segments + 1) * np + 1;
    assert bottomFaceV == BottomPole(segments, np) && topFaceV == TopPole(segments, np);

    var base := j + np * i;
    var a := base;
    var b := base + np;
    var c := base + 1 + np;
    var d := base + 1;

    var u0 := (i as real) * inverseSegments;
    var v0 := (j as real) * inversePointLength;
    var u1 := u0 + inverseSegments;
    var v1 := v0 + inversePointLength;
    assert u0 == Fraction(i, segments) && v0 == Fraction(j, np - 1);

    faces', uvs' := faces, uvs;
    faces' := faces' + [Face(a, b, d)];
    uvs' := uvs' + [UvTriple(Uv(u0, v0), Uv(u1, v0), Uv(u0, v1))];
    faces' := faces' + [Face(b, c, d)];
    uvs' := uvs' + [UvTriple(Uv(u1, v0), Uv(u1, v1), Uv(u0, v1))];
    assert uvs' == uvs + QuadUvs(segments, pointLength, i, j);
    assert faces' == faces + [Face(a, b, d), Face(b, c, d)];
    // the bottom face
    if j == 0 {
      faces' := faces' + [Face(a, bottomFaceV, b)];
    }
    // the top face
    if j == pointLength - 2 {
      faces' := faces' + [Face(c, topFaceV, d)];
    }
  }

  /** The inner face loop: the quads of ring pair i. */
  method PushRow(segments: nat, pointLength: nat, i: nat, faces: seq<Face>, uvs: seq<UvTriple>)
    returns (faces': seq<Face>, uvs': seq<UvTriple>)
    requires segments >= 1 && pointLength >= 2
    ensures faces' == faces + RowFaces(segments, pointLength, i, pointLength - 1)
    ensures uvs' == uvs + RowUvs(segments, pointLength, i, pointLength - 1)
  {
    faces', uvs' := faces, uvs;
    var j := 0;
    while j < pointLength - 1
      invariant 0 <= j <= pointLength - 1
      invariant faces' == faces + RowFaces(segments, pointLength, i, j)
      invariant uvs' == uvs + RowUvs(segments, pointLength, i, j)
    {
      AppendAssoc(faces, RowFaces(segments, pointLength, i, j), QuadFaces(segments, pointLength, i, j));
      AppendAssoc(uvs, RowUvs(segments, pointLength, i, j), QuadUvs(segments, pointLength, i, j));
      faces', uvs' := PushQuad(segments, pointLength, i, j, faces', uvs');
      j := j + 1;
    }
  }

  /** The face loops: for every quad, the two side triangles with their UV
      triplets, then the bottom cap when j == 0 and the top cap when
      j == pointLength - 2, neither with a UV triplet. */
  method PushFaces(segments: nat, pointLength: nat) returns (faces: seq<Face>, uvs: seq<UvTriple>)
    requires segments >= 1 && pointLength >= 2
    ensures faces == GridFaces(segments, pointLength, segments)
    ensures uvs == GridUvs(segments, pointLength, segments)
  {
    faces, uvs := [], [];
    var i := 0;
    while i < segments
      invariant 0 <= i <= segments
      invariant faces == GridFaces(segments, pointLength, i)
      invariant uvs == GridUvs(segments, pointLength, i)
    {
      faces, uvs := PushRow(segments, pointLength, i, faces, uvs);
      i := i + 1;
    }
  }

  /** The whole constructor up to the host-library calls. */
  method CustomLatheGeometry(grid: Grid, trig: Trig, scale: real, height: real) returns (g: Geometry)
    requires ValidGrid(grid)
    ensures g == Build(grid, trig, scale, height)
    ensures |g.vertices| == (|grid| + 1) * |grid[0]| + 2
    ensures |g.faces| == 2 * |grid| * (|grid[0]| - 1) + 2 * |grid|
    ensures |g.uvs| == 2 * |grid| * (|grid[0]| - 1)
    ensures forall f :: f in g.faces ==>
              f.a < |g.vertices| && f.b < |g.vertices| && f.c < |g.vertices|
  {
    var vertices := PushVertices(grid, trig, scale, height);
    var faces, uvs := PushFaces(|grid|, |grid[0]|);
    g := Geometry(vertices, faces, uvs);
    assert g == Build(grid, trig, scale, height);
    assert |g.vertices| == (|grid| + 1) * |grid[0]| + 2 by {
      VertexCount(grid, trig, scale, height);
    }
    assert |g.faces| == 2 * |grid| * (|grid[0]| - 1) + 2 * |grid| by {
      FaceAndUvCounts(grid, trig, scale, height);
    }
    assert |g.uvs| == 2 * |grid| * (|grid[0]| - 1) by {
      FaceAndUvCounts(grid, trig, scale, height);
    }
    assert forall f :: f in g.faces ==>
             f.a < |g.vertices| && f.b < |g.vertices| && f.c < |g.vertices| by {
      FaceIndicesValid(grid, trig, scale, height);
    }
  }
}
