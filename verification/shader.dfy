/** The vertex-shader composition of three-additions.js: the per-mesh
displacement accumulator `addDisplacement` and the material selector
`getMaterial`.

Shader text is treated as opaque strings that are only concatenated. The
two halves of the Lambert template are left uninterpreted; the material
objects the host library builds are reduced to which variant is chosen and
what it is given.
 */
module Shader {

  /** LAMBERT_START: the fixed Lambert prologue, before the displacement. */
  const LambertStart: string

  /** LAMBERT_END: the fixed Lambert lighting body, after the displacement. */
  const LambertEnd: string

  /** preProcess(): copies the vertex position into editable locals. */
  const PreProcess: string :=
    "float x = position.x;\n" + "float y = position.y;\n" + "float z = position.z;\n"

  /** postProcess(): rebuilds the displaced position from those locals. */
  const PostProcess: string := "vec3 displacedPosition = vec3(x, y, z);\n"

  /** The JavaScript values the factor arguments of getMaterial can take. */
  datatype JsValue =
    | Undefined
    | Null
    | Bool(flag: bool)
    | Number(n: real)
    | NaN
    | Str(s: string)
    | Object(id: nat)

  /** JavaScript truthiness, as `b && noise` tests it. */
  predicate Truthy(v: JsValue)
  {
    match v
    case Undefined => false
    case Null => false
    case Bool(flag) => flag
    case Number(n) => n != 0.0
    case NaN => false
    case Str(s) => s != ""
    case Object(_) => true
  }

  /** A displacement string argument or property, possibly never set. */
  datatype Displacement = NoDisplacement | Displacement(text: string)

  /** `s || ''` for a displacement string s: an unset string reads as ''. */
  function TextOf(d: Displacement): string
  {
    match d
    case NoDisplacement => ""
    case Displacement(text) => text
  }

  /** One entry of a ShaderMaterial's uniforms object. */
  datatype Uniform = Uniform(name: string, kind: string, value: JsValue)

  /** The material installed on a mesh. */
  datatype Material =
      /** The random-displacement variant; its two shader sources belong to
          the host page and are not modelled. */
    | RandomDisplacement(uniforms: seq<Uniform>)
      /** The Lambert variant: the library's Lambert fragment shader,
          uniforms and lights, with this vertex shader. */
    | Lambert(vertexShader: string)
      /** A material installed by other code. */
    | Preset(id: nat)

  /** getMaterial(b, noise, tex, displacmentString). */
  function GetMaterial(b: JsValue, noise: JsValue, tex: JsValue, d: Displacement): (m: Material)
    ensures m.RandomDisplacement? <==> Truthy(b) && Truthy(noise)
    ensures m.Lambert? <==> !(Truthy(b) && Truthy(noise))
    ensures m.RandomDisplacement? ==>
              && |m.uniforms| == 3
              && m.uniforms[0] == Uniform("tExplosion", "t", tex)
              && m.uniforms[1] == Uniform("bFactor", "f", b)
              && m.uniforms[2] == Uniform("noiseFactor", "f", noise)
    ensures m.Lambert? ==>
              && LambertStart <= m.vertexShader
              && |m.vertexShader| == |LambertStart| + |TextOf(d)| + |LambertEnd|
              && Spliced(m.vertexShader) == TextOf(d)
              && m.vertexShader[|m.vertexShader| - |LambertEnd|..] == LambertEnd
  {
    var lambertVertexShader := LambertStart + TextOf(d) + LambertEnd;
    if Truthy(b) && Truthy(noise) then
      RandomDisplacement([Uniform("tExplosion", "t", tex),
                          Uniform("bFactor", "f", b),
                          Uniform("noiseFactor", "f", noise)])
    else
      Lambert(lambertVertexShader)
  }

  /** The text between the Lambert prologue and epilogue of a shader: the
      inverse of splicing a displacement into the template. */
  function Spliced(shader: string): string
    requires |shader| >= |LambertStart| + |LambertEnd|
  {
    shader[|LambertStart| .. |shader| - |LambertEnd|]
  }

  /** Splicing a text into the template and cutting it out again yields the
      text. */
  lemma SplicedInverse(text: string)
    ensures Spliced(LambertStart + text + LambertEnd) == text
  {
    var shader := LambertStart + text + LambertEnd;
    assert shader[|LambertStart| .. |shader| - |LambertEnd|] == text;
  }

  /** In the random-displacement branch the displacement string is ignored. */
  lemma RandomBranchIgnoresDisplacement(b: JsValue, noise: JsValue, tex: JsValue, d1: Displacement, d2: Displacement)
    requires Truthy(b) && Truthy(noise)
    ensures GetMaterial(b, noise, tex, d1) == GetMaterial(b, noise, tex, d2)
  {
  }

  /** An undefined displacement string counts as ''. */
  lemma UndefinedDisplacementIsEmpty(b: JsValue, noise: JsValue, tex: JsValue)
    ensures GetMaterial(b, noise, tex, NoDisplacement) == GetMaterial(b, noise, tex, Displacement(""))
  {
  }

  /** The state addDisplacement keeps on a mesh: its accumulated
      displacement string (unset on a new mesh) and its material. */
  datatype Mesh = Mesh(displacement: Displacement, material: Material)

  /** The accumulator: `if (!this.displacmentString) this.displacmentString = ''`
      makes an unset or empty property read as ''. */
  function Accumulated(mesh: Mesh): string
  {
    TextOf(mesh.displacement)
  }

  /** mesh.addDisplacement(str). */
  function AddDisplacement(mesh: Mesh, str: string): (mesh': Mesh)
    ensures Accumulated(mesh') == Accumulated(mesh) + str
    ensures mesh'.material.Lambert?
    ensures |mesh'.material.vertexShader| >= |LambertStart| + |LambertEnd|
    ensures Spliced(mesh'.material.vertexShader) == PreProcess + Accumulated(mesh') + PostProcess
  {
    var acc := Accumulated(mesh) + str;
    Mesh(Displacement(acc),
         GetMaterial(Undefined, Undefined, Undefined, Displacement(PreProcess + acc + PostProcess)))
  }

  /** The fragments s1, ..., sn joined in order. */
  function Concat(frags: seq<string>): string
  {
    if |frags| == 0 then ""
    else Concat(frags[..|frags| - 1]) + frags[|frags| - 1]
  }

  /** Calls addDisplacement(s1), ..., addDisplacement(sn) in order. */
  function AddAll(mesh: Mesh, frags: seq<string>): (mesh': Mesh)
    ensures Accumulated(mesh') == Accumulated(mesh) + Concat(frags)
    ensures |frags| > 0 ==> mesh'.material.Lambert?
  {
    if |frags| == 0 then mesh
    else
      var prev := AddAll(mesh, frags[..|frags| - 1]);
      var last := frags[|frags| - 1];
      assert Accumulated(mesh) + Concat(frags) == Accumulated(prev) + last;
      AddDisplacement(prev, last)
  }

  /** The vertex shader addDisplacement installs is always the Lambert
      template around preProcess(), the accumulated fragments and
      postProcess(), because it passes `undefined` for b and noise. */
  lemma AddDisplacementShader(mesh: Mesh, str: string)
    ensures AddDisplacement(mesh, str).material
            == Lambert(LambertStart + PreProcess + (Accumulated(mesh) + str) + PostProcess + LambertEnd)
  {
  }

  /** After calls with s1, ..., sn on a new mesh the accumulator holds
      s1 + ... + sn and the shader splices exactly that. */
  lemma AccumulatesInCallOrder(id: nat, frags: seq<string>)
    requires |frags| > 0
    ensures AddAll(Mesh(NoDisplacement, Preset(id)), frags).displacement == Displacement(Concat(frags))
    ensures AddAll(Mesh(NoDisplacement, Preset(id)), frags).material
            == Lambert(LambertStart + PreProcess + Concat(frags) + PostProcess + LambertEnd)
  {
    var init := frags[..|frags| - 1];
    var last := frags[|frags| - 1];
    var before := AddAll(Mesh(NoDisplacement, Preset(id)), init);
    assert Accumulated(before) == Concat(init);
    AddDisplacementShader(before, last);
  }

  lemma {:induction false} ConcatAppend(xs: seq<string>, ys: seq<string>)
    ensures Concat(xs + ys) == Concat(xs) + Concat(ys)
    decreases |ys|
  {
    if |ys| == 0 {
      assert xs + ys == xs;
    } else {
      var zs := xs + ys;
      assert zs[..|zs| - 1] == xs + ys[..|ys| - 1];
      ConcatAppend(xs, ys[..|ys| - 1]);
    }
  }

  /** Applying the fragments of f1 + f2 is applying those of f1 and then
      those of f2 to the resulting mesh. */
  lemma {:induction false} AddAllSplits(mesh: Mesh, f1: seq<string>, f2: seq<string>)
    ensures AddAll(mesh, f1 + f2) == AddAll(AddAll(mesh, f1), f2)
    decreases |f2|
  {
    if |f2| == 0 {
      assert f1 + f2 == f1;
    } else {
      var all := f1 + f2;
      var init, last := f2[..|f2| - 1], f2[|f2| - 1];
      assert all[..|all| - 1] == f1 + init;
      assert all[|all| - 1] == last;
      AddAllSplits(mesh, f1, init);
      AddAllLast(mesh, all);
      AddAllLast(AddAll(mesh, f1), f2);
    }
  }

  lemma AddAllLast(mesh: Mesh, frags: seq<string>)
    requires |frags| > 0
    ensures AddAll(mesh, frags) == AddDisplacement(AddAll(mesh, frags[..|frags| - 1]), frags[|frags| - 1])
  {
  }

  /** Two calls with F1 then F2 leave the mesh as one call with F1 + F2. */
  lemma TwoCallsAsOne(mesh: Mesh, f1: string, f2: string)
    ensures AddDisplacement(AddDisplacement(mesh, f1), f2) == AddDisplacement(mesh, f1 + f2)
  {
    assert Accumulated(mesh) + f1 + f2 == Accumulated(mesh) + (f1 + f2);
  }

  /** Adding the same non-empty fragment twice includes it twice: the
      operation is not idempotent. */
  lemma NotIdempotent(mesh: Mesh, str: string)
    requires str != ""
    ensures Accumulated(AddDisplacement(AddDisplacement(mesh, str), str)) == Accumulated(mesh) + str + str
    ensures AddDisplacement(AddDisplacement(mesh, str), str) != AddDisplacement(mesh, str)
  {
    var once := AddDisplacement(mesh, str);
    var twice := AddDisplacement(once, str);
    assert |Accumulated(twice)| == |Accumulated(once)| + |str|;
  }

  /** The accumulator can be read back from the installed shader alone by
      cutting away the template, preProcess() and postProcess(). */
  lemma AccumulatorRecoverable(mesh: Mesh, str: string)
    ensures var vs := AddDisplacement(mesh, str).material.vertexShader;
            var body := Spliced(vs);
            |body| >= |PreProcess| + |PostProcess|
            && body[|PreProcess| .. |body| - |PostProcess|] == Accumulated(mesh) + str
  {
    var acc := Accumulated(mesh) + str;
    var body := PreProcess + acc + PostProcess;
    assert body[|PreProcess| .. |body| - |PostProcess|] == acc;
  }
}
