# Lathe geometry and displacement shaders, modelled in Dafny

This project models the two pieces of `public/pcg/three-additions.js` that do
real work:

- **`THREE.CustomLatheGeometry`** turns a grid of radii
  (`radiiArray[i][j]`, with S = `radiiArray.length` rings of
  P = `radiiArray[0].length` samples) into a closed, UV-mapped triangle mesh.
  It pushes S+1 rings of P vertices. Ring `i` runs from S down to 0 and reads
  radius row `i % S`, so ring S repeats row 0 and the seam closes. Then it
  pushes a bottom and a top pole vertex. For every quad `(i, j)` it pushes the
  side triangles `(a,b,d)` and `(b,c,d)`, each with a UV triplet. It also
  pushes a bottom cap `(a, bottomFaceV, b)` when `j == 0` and a top cap
  `(c, topFaceV, d)` when `j == P-2`. The caps get no UV triplet.
- **`addDisplacement` / `getMaterial`** build a vertex shader. Every
  displacement fragment is appended to a per-mesh string. The mesh then gets
  a Lambert material whose vertex shader is
  `LAMBERT_START + preProcess() + accumulated + postProcess() + LAMBERT_END`.
  `getMaterial` chooses the random-displacement variant only when both `b`
  and `noise` are truthy.

Modules:

- `Lathe` (`lathe.dfy`): the data (`Vertex`, `Face`, `UvTriple`,
  `Geometry`) and the geometry as pure functions over the loop indices.
- `LatheLayout` (`lathe_layout.dfy`): the lemmas. They cover vertex placement,
  index validity, face and UV counts, push order, seam closure, heights, UV
  ranges and linearity in `scale` and `height`.
- `LatheBuilder` (`lathe_builder.dfy`): the constructor written as the source's
  nested loops. It is proved to build exactly `Lathe.Build`.
- `Shader` (`shader.dfy`): JavaScript truthiness, `getMaterial`, the mesh
  accumulator, `addDisplacement`, and the splice and accumulation lemmas.

Modelling choices:

- Coordinates and UVs are exact `real`s. The code computes
  `j * inversePointLength` and `i * inverseSegments` with
  `inverse = 1.0 / n`, and the model does the same.
- `Math.cos` and `Math.sin` are a parameter (`Lathe.Trig`). Its two functions
  take the angle as a fraction of a full turn (`i/S`); the `2*pi` factor is
  folded into them.
- `LAMBERT_START` and `LAMBERT_END` are constants with no value, so nothing
  depends on their GLSL text. `preProcess()` and `postProcess()` are the exact
  string literals.
- The constructor does not validate the grid. Its assumptions (at least one
  ring, at least two samples, rectangular) are the precondition `ValidGrid`,
  not an error path.
- With P == 2 the two cap conditions `j == 0` and `j == P-2` are independent
  and both hold, so every ring pair gets both caps. A 3x2 grid yields 6 side
  faces and 6 caps, 12 faces in all.
- The comment on line 58 gives the top pole index as `(segments+1)*(np+1)`.
  The code on line 60 uses `(segments+1)*np + 1`, and the model follows the
  code.
- The vertex loop counts `i` downwards, so flat index `P*i + j` (the one the
  face loop uses) holds sample `j` of ring `S - i`. `LatheLayout.VertexLayout`
  states this.
- The UV list is `2*S` entries shorter than the face list. The triplets of
  quad `(i, j)` sit `2*i (+1 when j > 0)` positions earlier than its faces
  (`LatheLayout.QuadUvsInOrder`). How the host library pairs the two lists is
  not part of this model.

## Model

| member | source | states |
|---|---|---|
| Lathe.BottomPole | public/pcg/three-additions.js:59 | definition, no contract: bottomFaceV = (segments+1)*np |
| Lathe.TopPole | public/pcg/three-additions.js:60 | definition, no contract: topFaceV = (segments+1)*np + 1 |
| Lathe.RingVertex | public/pcg/three-additions.js:41-46 | definition, no contract: sample j of ring i, x = scale*cos*r, y = height*scale*j*inversePointLength, z = scale*sin*r with r from row i % S |
| Lathe.QuadFaces | public/pcg/three-additions.js:66-105 | definition, no contract: faces (a,b,d), (b,c,d), then (a, bottomFaceV, b) when j = 0, then (c, topFaceV, d) when j = P-2 |
| Lathe.QuadUvs | public/pcg/three-additions.js:72-95 | definition, no contract: the triplets (u0,v0),(u1,v0),(u0,v1) and (u1,v0),(u1,v1),(u0,v1) |
| Lathe.Build | public/pcg/three-additions.js:23-108 | definition, no contract: the vertices, faces and UV triplets the constructor pushes |
| Lathe.RadiusRow | public/pcg/three-additions.js:41 | every radius lookup `i % segments` lies in [0, S); it is `i` for rings below S and row 0 for ring S |
| Lathe.Ring | public/pcg/three-additions.js:39-50 | the inner vertex loop yields exactly P vertices, the j-th being sample j of ring i |
| Lathe.Sweep | public/pcg/three-additions.js:33-52 | the outer vertex loop from ring S down to ring k pushes (S+1-k)*P vertices |
| Lathe.Vertices | public/pcg/three-additions.js:33-60 | before merging there are (S+1)*P + 2 vertices; the bottom pole (0,0,0) is at (S+1)*P and the top pole (0, height*scale, 0) at (S+1)*P + 1 |
| Lathe.RowFaces | public/pcg/three-additions.js:64-105 | the first n quads of a ring pair push 2n side faces, one bottom cap once n > 0 and one top cap once n reaches P-1 |
| Lathe.GridFaces | public/pcg/three-additions.js:62-108 | m ring pairs push 2*P*m faces |
| Lathe.RowUvs | public/pcg/three-additions.js:79-95 | the first n quads of a ring pair push 2n UV triplets |
| Lathe.GridUvs | public/pcg/three-additions.js:62-108 | m ring pairs push 2*(P-1)*m UV triplets, none for the caps |
| LatheLayout.SweepLayout | public/pcg/three-additions.js:33-52 | ring r sits at offset (S-r)*P of the vertices pushed for rings S..k |
| LatheLayout.VertexLayout | public/pcg/three-additions.js:33-69 | the index P*i + j used by the face loop is a ring vertex and holds sample j of ring S-i |
| LatheLayout.VertexCount | public/pcg/three-additions.js:33-60 | alias of the length clause of `Lathe.Vertices`, restated with `|grid|` and `|grid[0]|` for `CustomLatheGeometry`: the vertex list has (S+1)*P + 2 entries |
| LatheLayout.RingSeam | public/pcg/three-additions.js:33-46 | ring S and ring 0 read radius row 0 and have equal heights; when cos and sin agree at a full turn and at zero they are the same vertices |
| LatheLayout.SeamClosed | public/pcg/three-additions.js:33-52 | under that periodicity the first ring pushed (indices 0..P-1) equals the last one (indices S*P..S*P+P-1) |
| LatheLayout.SampleHeights | public/pcg/three-additions.js:45-58 | sample j has height height*scale*j/(P-1); it is 0 at j = 0 and height*scale at j = P-1, the y values of the two poles |
| LatheLayout.RingVertexScaled | public/pcg/three-additions.js:44-46 | multiplying scale by k multiplies x, y and z of every ring vertex by k |
| LatheLayout.ScaleLinear | public/pcg/three-additions.js:44-58 | multiplying scale by k multiplies every coordinate of the ring vertex at P*i + j by k |
| LatheLayout.RingVertexHeightScaled | public/pcg/three-additions.js:44-46 | multiplying height by k multiplies y of a ring vertex by k and leaves x and z unchanged |
| LatheLayout.HeightLinear | public/pcg/three-additions.js:44-58 | multiplying height by k multiplies y of the ring vertex at P*i + j by k and leaves x and z unchanged |
| LatheLayout.PolesScaled | public/pcg/three-additions.js:57-58 | the top pole's height scales linearly with scale and with height |
| LatheLayout.ZeroRadiiOnAxis | public/pcg/three-additions.js:41-46 | an all-zero grid puts every ring vertex on the y axis (x = z = 0) |
| LatheLayout.QuadWellFormed | public/pcg/three-additions.js:66-105 | every face of a quad has three distinct indices; its side corners are ring vertices and its middle corner is a ring vertex or a pole |
| LatheLayout.GridWellFormed | public/pcg/three-additions.js:62-108 | every face of the first m ring pairs is well formed in that sense |
| LatheLayout.FaceIndicesValid | public/pcg/three-additions.js:59-105 | every face index of the built geometry is below the vertex count, and the three indices of every face are pairwise distinct |
| LatheLayout.LargestSideIndex | public/pcg/three-additions.js:66-69 | corner c of the last quad, (P-2) + P*(S-1) + 1 + P, is the last ring vertex (S+1)*P - 1 |
| LatheLayout.TwoSampleQuadHasBothCaps | public/pcg/three-additions.js:97-105 | with P = 2 the quad of every ring pair pushes four faces, a bottom cap and then a top cap |
| LatheLayout.CountMiddleAppend | public/pcg/three-additions.js:62-108 | the faces naming a pole in the middle of two concatenated face lists are counted as the sum of the two counts |
| LatheLayout.QuadPoleCount | public/pcg/three-additions.js:97-105 | quad (i, j) has one face with the bottom pole in the middle exactly when j = 0 and one with the top pole exactly when j = P-2 |
| LatheLayout.RowPoleCount | public/pcg/three-additions.js:64-105 | the first n quads of a ring pair hold one bottom cap once n > 0 and one top cap once n = P-1 |
| LatheLayout.GridPoleCount | public/pcg/three-additions.js:62-108 | m ring pairs contain exactly m bottom caps and m top caps |
| LatheLayout.FaceAndUvCounts | public/pcg/three-additions.js:62-108 | the built geometry has 2*S*(P-1) + 2*S faces and 2*S*(P-1) UV triplets (2*S fewer), with exactly S bottom and S top caps |
| LatheLayout.QuadInRow | public/pcg/three-additions.js:64-105 | quad j's faces appear contiguously at 2j (+1 when j > 0) among its ring pair's faces |
| LatheLayout.RowInGrid | public/pcg/three-additions.js:62-108 | ring pair i's faces occupy positions 2*P*i .. 2*P*(i+1) of the face list |
| LatheLayout.QuadFacesInOrder | public/pcg/three-additions.js:62-106 | the faces of quad (i, j) appear contiguously at 2*P*i + 2j (+1 when j > 0), in the order (a,b,d), (b,c,d), bottom cap, top cap |
| LatheLayout.QuadUvsInOrder | public/pcg/three-additions.js:72-95 | the two UV triplets of quad (i, j) appear at 2*(P-1)*i + 2j, which is 2*i (+1 when j > 0) before the quad's first face |
| LatheLayout.FractionInUnit | public/pcg/three-additions.js:72-75 | k * (1/n) lies in [0, 1] for 0 <= k <= n |
| LatheLayout.QuadUvsInUnitSquare | public/pcg/three-additions.js:72-95 | every component u0, u1, v0, v1 of both UV triplets of a quad lies in [0, 1] |
| LatheLayout.RowUvsInUnitSquare | public/pcg/three-additions.js:64-95 | every UV triplet of the first n quads of a ring pair lies in the unit square |
| LatheLayout.GridUvsInUnitSquare | public/pcg/three-additions.js:62-108 | every UV triplet of the first m ring pairs lies in the unit square |
| LatheLayout.UvsInUnitSquare | public/pcg/three-additions.js:62-108 | every UV component of the built geometry lies in [0, 1] |
| LatheBuilder.PushRing | public/pcg/three-additions.js:35-50 | the inner vertex loop appends exactly ring i |
| LatheBuilder.SampleAt | public/pcg/three-additions.js:35-46 | the vertex built from the hoisted `c`, `s`, `inversePointLength` and the looked-up radius is sample j of ring i |
| LatheBuilder.PushVertices | public/pcg/three-additions.js:33-60 | the vertex loops and the two pole pushes build exactly `Lathe.Vertices` |
| LatheBuilder.PushQuad | public/pcg/three-additions.js:66-105 | one iteration of the inner face loop appends exactly the quad's faces and its two UV triplets |
| LatheBuilder.PushRow | public/pcg/three-additions.js:64-106 | the inner face loop appends exactly the faces and UV triplets of ring pair i |
| LatheBuilder.PushFaces | public/pcg/three-additions.js:62-108 | the face loops build exactly `Lathe.GridFaces` and `Lathe.GridUvs` |
| LatheBuilder.CustomLatheGeometry | public/pcg/three-additions.js:23-108 | the constructor builds exactly `Lathe.Build`: (S+1)*P + 2 vertices, 2*S*(P-1) + 2*S faces, 2*S*(P-1) UV triplets, every face index inside the vertex list |
| Shader.Truthy | public/pcg/three-additions.js:125 | definition, no contract: JavaScript truthiness as `b && noise` tests it |
| Shader.TextOf | public/pcg/three-additions.js:121 | definition, no contract: `displacmentString || ''` for a string or unset argument |
| Shader.GetMaterial | public/pcg/three-additions.js:120-145 | the random-displacement variant is chosen iff `b` and `noise` are both truthy, and then has uniforms tExplosion, bFactor and noiseFactor; otherwise the Lambert vertex shader starts with LAMBERT_START, ends with LAMBERT_END and holds exactly the displacement string between them, with undefined read as '' |
| Shader.SplicedInverse | public/pcg/three-additions.js:122 | cutting the Lambert prologue and epilogue off a spliced shader recovers the spliced text |
| Shader.RandomBranchIgnoresDisplacement | public/pcg/three-additions.js:125-136 | when `b` and `noise` are truthy the displacement string does not affect the material |
| Shader.UndefinedDisplacementIsEmpty | public/pcg/three-additions.js:121 | an undefined displacement string gives the same material as '' |
| Shader.AddDisplacement | public/pcg/three-additions.js:11-18 | the accumulator grows by exactly the fragment; the new material is Lambert and its spliced text is preProcess() + accumulator + postProcess() |
| Shader.AddDisplacementShader | public/pcg/three-additions.js:1-18 | the installed vertex shader is LAMBERT_START + preProcess() + accumulator + postProcess() + LAMBERT_END |
| Shader.AddAll | public/pcg/three-additions.js:11-18 | a sequence of calls appends the concatenation of the fragments, in call order, and leaves a Lambert material |
| Shader.AccumulatesInCallOrder | public/pcg/three-additions.js:11-18 | starting from a mesh that has never been displaced, calls with s1..sn leave accumulator s1 + ... + sn and the shader built from it |
| Shader.ConcatAppend | public/pcg/three-additions.js:15 | joining f1 + f2 is joining f1 then joining f2 |
| Shader.AddAllSplits | public/pcg/three-additions.js:11-18 | applying f1 + f2 equals applying f1 and then f2 to the result |
| Shader.TwoCallsAsOne | public/pcg/three-additions.js:11-18 | calls with F1 then F2 leave the same mesh as one call with F1 + F2 |
| Shader.NotIdempotent | public/pcg/three-additions.js:11-18 | calling twice with the same non-empty fragment includes it twice and differs from calling once |
| Shader.AccumulatorRecoverable | public/pcg/three-additions.js:1-18 | the accumulator can be read back from the installed shader by cutting away the template, preProcess() and postProcess() |

## Left out

- `server.js`: Express/socket.io set-up, port binding and static serving. It is I/O with no logic of its own.
- `mergeVertices`, `computeCentroids`, `computeFaceNormals`, `computeVertexNormals` and `THREE.Geometry.call` (lines 25, 110-113): host-library code that is not part of this model. The geometry is modelled as it is before these calls.
- `Math.cos` / `Math.sin` and floating point: the x and z coordinates use a caller-supplied `Trig`, and all arithmetic is exact. Rounding (for example `cos(2*pi)` versus `cos(0)`) is captured only by the periodicity hypothesis of `LatheLayout.RingSeam` and `LatheLayout.SeamClosed`. Even ring S's turn fraction `S * (1/S)` is not exactly 1 in doubles for some S (S = 49).
- LatheLayout.QuadUvsInUnitSquare: holds for exact reals only. In doubles the last `u1 = (S-1)*(1/S) + 1/S` can exceed 1 (S = 93 gives 1.0000000000000002), and the same goes for `RowUvsInUnitSquare`, `GridUvsInUnitSquare` and `UvsInUnitSquare`.
- LatheLayout.SampleHeights: holds for exact reals only. In doubles the top sample's y `height*scale*(P-1)*(1/(P-1))` can differ from the top pole's `height*scale` (P = 50 with height*scale = 1 gives 0.9999999999999999).
- `THREE.ShaderMaterial`, `THREE.ShaderLib.lambert` and `this.vsRandDisplacement` / `this.fsRandDisplacement`: the model records only which variant is chosen, its uniform names, types and values, and the Lambert vertex shader string.
- The GLSL text of `LAMBERT_START` / `LAMBERT_END` (lines 147-455): uninterpreted constants.
- `getMaterial` with a displacement argument that is truthy but not a string (JavaScript would convert it to text): the argument is modelled as an optional string.
- Grids outside `ValidGrid`: the model requires at least one ring, at least two samples and rectangular rows, although the source runs on some other grids without error. With P = 1, `inversePointLength` is Infinity, every ring vertex gets y = NaN and no faces are pushed. With P = 0, only the two poles are pushed. Rows after row 0 that are longer than it are read only up to P. Shorter rows and an empty grid make the source read undefined values or throw.
