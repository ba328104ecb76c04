/** The renderer's scene protocol: `BeginScene` records the camera's
    view-projection matrix, `Submit` draws with it, and `EndScene` does
    nothing. Nothing enforces the order of these calls. Matrices are opaque
    values; the commands the renderer hands to `RenderCommand`, the vertex
    array and the shader are recorded as a trace. */
module Renderer {
  import opened Gl
  import Uniforms

  /** A 4x4 matrix; its floating-point entries are not modelled. */
  datatype Matrix = Matrix(token: nat)

  /** `Renderer::SceneData`. */
  datatype SceneData = SceneData(viewProjection: Matrix)

  datatype Command =
    | RenderCommandInit
    | Renderer2DInit
    | SetViewport(x: nat, y: nat, width: nat, height: nat)
    | Gl(call: Call)
    | BindVertexArray(vertexArray: nat)
    | DrawIndexed(vertexArray: nat)

  /** `Renderer::Init()`. */
  function Init(): (r: seq<Command>)
    ensures r == [RenderCommandInit, Renderer2DInit]
    ensures GlCalls(r) == []
  {
    [RenderCommandInit, Renderer2DInit]
  }

  /** `Renderer::OnWindowResize(width, height)`: one viewport from the origin. */
  function OnWindowResize(width: nat, height: nat): (r: seq<Command>)
    ensures r == [SetViewport(0, 0, width, height)]
    ensures GlCalls(r) == []
  {
    [SetViewport(0, 0, width, height)]
  }

  /** `Renderer::BeginScene(camera)`. */
  function BeginScene(scene: SceneData, camera: Matrix): (r: SceneData)
    ensures r.viewProjection == camera
  {
    scene.(viewProjection := camera)
  }

  /** `Renderer::EndScene()`. */
  function EndScene(scene: SceneData): (r: SceneData)
    ensures r == scene
  {
    scene
  }

  const ModelUniform: string := "modelMat"
  const ViewProjectionUniform: string := "viewProjMat"

  /** What `setMat4fv(name, m)` uploads: a 4x4 matrix, not transposed. */
  function MatrixValue(m: Matrix): UniformValue
  {
    UniformValue(Mat4Kind, m.token, false)
  }

  /** GL calls as renderer commands. */
  function Lift(calls: seq<Call>): (r: seq<Command>)
    ensures |r| == |calls|
    ensures forall i :: 0 <= i < |calls| ==> r[i] == Gl(calls[i])
  {
    seq(|calls|, i requires 0 <= i < |calls| => Gl(calls[i]))
  }

  /** The GL calls in a command trace, in order. */
  function GlCalls(cs: seq<Command>): (r: seq<Call>)
    ensures |r| <= |cs|
    decreases |cs|
  {
    if |cs| == 0 then [] else (if cs[0].Gl? then [cs[0].call] else []) + GlCalls(cs[1..])
  }

  /** `Renderer::Submit(vertexArray, shader, transform)`: bind the shader,
      upload the model and view-projection matrices, bind the vertex array,
      draw it. */
  function Submit(scene: SceneData, vertexArray: nat, shader: nat, transform: Matrix): (r: seq<Command>)
    ensures |r| == 7
    ensures forall i :: 0 <= i < 5 ==> r[i].Gl?
    ensures r[5] == BindVertexArray(vertexArray) && r[6] == DrawIndexed(vertexArray)
  {
    Lift(Uniforms.Use(shader)
         + Uniforms.SetNamed(shader, ModelUniform, MatrixValue(transform))
         + Uniforms.SetNamed(shader, ViewProjectionUniform, MatrixValue(scene.viewProjection)))
      + [BindVertexArray(vertexArray), DrawIndexed(vertexArray)]
  }

  /** The commands `Submit` issues, in order: the shader's `use()`, the two
      matrix setters (each binding the shader again), the vertex-array bind
      and the indexed draw of that same vertex array. */
  lemma SubmitShape(scene: SceneData, vertexArray: nat, shader: nat, transform: Matrix)
    ensures Submit(scene, vertexArray, shader, transform)
         == [Gl(UseProgram(shader)),
             Gl(UseProgram(shader)), Gl(Upload(NamedLocation("modelMat"), MatrixValue(transform))),
             Gl(UseProgram(shader)), Gl(Upload(NamedLocation("viewProjMat"), MatrixValue(scene.viewProjection))),
             BindVertexArray(vertexArray), DrawIndexed(vertexArray)]
  {
  }

  lemma {:induction false} GlCallsAppend(a: seq<Command>, b: seq<Command>)
    ensures GlCalls(a + b) == GlCalls(a) + GlCalls(b)
    decreases |a|
  {
    if |a| == 0 {
      assert a + b == b;
    } else {
      var head := if a[0].Gl? then [a[0].call] else [];
      assert (a + b)[0] == a[0] && (a + b)[1..] == a[1..] + b;
      GlCallsAppend(a[1..], b);
      calc {
        GlCalls(a + b);
        head + GlCalls(a[1..] + b);
        head + (GlCalls(a[1..]) + GlCalls(b));
        (head + GlCalls(a[1..])) + GlCalls(b);
      }
    }
  }

  lemma {:induction false} GlCallsLift(calls: seq<Call>)
    ensures GlCalls(Lift(calls)) == calls
    decreases |calls|
  {
    if |calls| > 0 {
      GlCallsLift(calls[1..]);
      assert Lift(calls)[1..] == Lift(calls[1..]);
      assert calls == [calls[0]] + calls[1..];
    }
  }

  /** Whether an upload to `location` of `program` writes the key `k`: only a
      bound program (not 0) and a found location (not -1) take a value. */
  predicate Written(program: nat, location: int, k: (nat, int))
  {
    program != 0 && location >= 0 && k == (program, location)
  }

  /** After a submit, the shader is bound and holds the transform as its
      model matrix and the scene's view-projection as its view-projection
      matrix, wherever it has those uniforms; when both names share a
      location, the later view-projection upload wins. Shader 0 and missing
      uniforms store nothing, and every other location keeps its value. */
  lemma SubmitStores(d: Uniforms.Interface, s: Uniforms.UniformState, scene: SceneData, vertexArray: nat,
                     shader: nat, transform: Matrix)
    ensures var after := Uniforms.Run(d, s, GlCalls(Submit(scene, vertexArray, shader, transform)));
      var model, view := d.location(shader, ModelUniform), d.location(shader, ViewProjectionUniform);
      && after.current == shader
      && (Written(shader, model, (shader, model)) && model != view ==>
            (shader, model) in after.values && after.values[(shader, model)] == MatrixValue(transform))
      && (Written(shader, view, (shader, view)) ==>
            (shader, view) in after.values && after.values[(shader, view)] == MatrixValue(scene.viewProjection))
      && (forall k :: !Written(shader, model, k) && !Written(shader, view, k) ==> Uniforms.Kept(s.values, after.values, k))
  {
    var use := Uniforms.Use(shader);
    var m := Uniforms.SetNamed(shader, ModelUniform, MatrixValue(transform));
    var v := Uniforms.SetNamed(shader, ViewProjectionUniform, MatrixValue(scene.viewProjection));
    GlCallsAppend(Lift(use + m + v), [BindVertexArray(vertexArray), DrawIndexed(vertexArray)]);
    assert GlCalls([BindVertexArray(vertexArray), DrawIndexed(vertexArray)]) == [];
    GlCallsLift(use + m + v);
    assert GlCalls(Submit(scene, vertexArray, shader, transform)) == use + m + v;
    Uniforms.RunAppend(d, s, use + m, v);
    Uniforms.RunAppend(d, s, use, m);
    var s1 := s.(current := shader);
    assert Uniforms.Run(d, s, use) == s1;
    assert m == Uniforms.Set(shader, NamedLocation(ModelUniform), MatrixValue(transform));
    assert v == Uniforms.Set(shader, NamedLocation(ViewProjectionUniform), MatrixValue(scene.viewProjection));
    Uniforms.SetEffect(d, s1, shader, NamedLocation(ModelUniform), MatrixValue(transform));
    var s2 := Uniforms.Run(d, s1, m);
    Uniforms.SetEffect(d, s2, shader, NamedLocation(ViewProjectionUniform), MatrixValue(scene.viewProjection));
  }

  // ---------------------------------------------------------------------------
  // A sequence of renderer calls.

  datatype Op =
    | Begin(camera: Matrix)
    | End
    | Draw(vertexArray: nat, shader: nat, transform: Matrix)

  /** One renderer call: the scene afterwards and the commands issued. */
  function Perform(scene: SceneData, op: Op): (SceneData, seq<Command>)
  {
    match op
    case Begin(camera) => (BeginScene(scene, camera), [])
    case End => (EndScene(scene), [])
    case Draw(va, shader, transform) => (scene, Submit(scene, va, shader, transform))
  }

  /** Calls in order, from a scene in any state: there is no check that a
      scene has begun, and none that the previous one has ended. */
  function Session(scene: SceneData, ops: seq<Op>): (SceneData, seq<Command>)
    decreases |ops|
  {
    if |ops| == 0 then (scene, [])
    else
      var before := Session(scene, ops[..|ops| - 1]);
      var now := Perform(before.0, ops[|ops| - 1]);
      (now.0, before.1 + now.1)
  }

  /** Without a `BeginScene`, the scene stays as it started: `EndScene`
      and `Submit` never change it. */
  lemma {:induction false} SessionSceneInitial(scene: SceneData, ops: seq<Op>)
    requires forall i :: 0 <= i < |ops| ==> !ops[i].Begin?
    ensures Session(scene, ops).0 == scene
    decreases |ops|
  {
    if |ops| > 0 {
      var init := ops[..|ops| - 1];
      assert forall i :: 0 <= i < |init| ==> init[i] == ops[i];
      SessionSceneInitial(scene, init);
    }
  }

  /** The scene holds the camera of the most recent `BeginScene`: a second
      one overwrites the first, and nothing after it changes the scene. */
  lemma {:induction false} SessionSceneLatest(scene: SceneData, ops: seq<Op>, k: nat)
    requires k < |ops| && ops[k].Begin?
    requires forall j :: k < j < |ops| ==> !ops[j].Begin?
    ensures Session(scene, ops).0.viewProjection == ops[k].camera
    decreases |ops|
  {
    if k < |ops| - 1 {
      var init := ops[..|ops| - 1];
      assert forall i :: 0 <= i < |init| ==> init[i] == ops[i];
      SessionSceneLatest(scene, init, k);
    }
  }

  /** Each draw uses the camera of the most recent `BeginScene` before it. */
  lemma DrawUsesLatestBegin(scene: SceneData, ops: seq<Op>, k: nat, i: nat)
    requires k < i < |ops|
    requires ops[k].Begin? && ops[i].Draw?
    requires forall j :: k < j < i ==> !ops[j].Begin?
    ensures Session(scene, ops[..i + 1]).1
         == Session(scene, ops[..i]).1 + Submit(SceneData(ops[k].camera), ops[i].vertexArray, ops[i].shader, ops[i].transform)
  {
    var prefix := ops[..i];
    assert ops[..i + 1][..i] == prefix;
    assert forall j :: k <= j < |prefix| ==> prefix[j] == ops[j];
    SessionSceneLatest(scene, prefix, k);
  }

  /** A draw before any `BeginScene` uses the scene data the renderer started with. */
  lemma DrawBeforeBegin(scene: SceneData, ops: seq<Op>, i: nat)
    requires i < |ops| && ops[i].Draw?
    requires forall j :: 0 <= j < i ==> !ops[j].Begin?
    ensures Session(scene, ops[..i + 1]).1
         == Session(scene, ops[..i]).1 + Submit(scene, ops[i].vertexArray, ops[i].shader, ops[i].transform)
  {
    var prefix := ops[..i];
    assert ops[..i + 1][..i] == prefix;
    assert forall j :: 0 <= j < |prefix| ==> prefix[j] == ops[j];
    SessionSceneInitial(scene, prefix);
  }

  /** Only draws issue commands. */
  lemma {:induction false} SessionCommands(scene: SceneData, ops: seq<Op>)
    ensures (forall i :: 0 <= i < |ops| ==> !ops[i].Draw?) ==> Session(scene, ops).1 == []
    decreases |ops|
  {
    if |ops| > 0 {
      var init := ops[..|ops| - 1];
      SessionCommands(scene, init);
      assert forall i :: 0 <= i < |init| ==> init[i] == ops[i];
    }
  }
}
