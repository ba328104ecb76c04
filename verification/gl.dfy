/** The slice of the OpenGL API the shader code drives, as an abstract call
    trace. Object names are the naturals the driver hands out (0 is "no
    object"); compile and link outcomes and uniform locations belong to the
    driver and enter the model as parameters. */
module Gl {

  /** A programmable stage. */
  datatype Stage = Vertex | Fragment | Geometry

  const GL_FRAGMENT_SHADER: nat := 0x8B30
  const GL_VERTEX_SHADER: nat := 0x8B31
  const GL_GEOMETRY_SHADER: nat := 0x8DD9

  /** The `GLenum` that names a stage. */
  function StageEnum(st: Stage): nat
  {
    match st
    case Vertex => GL_VERTEX_SHADER
    case Fragment => GL_FRAGMENT_SHADER
    case Geometry => GL_GEOMETRY_SHADER
  }

  /** How an upload finds its uniform: `glGetUniformLocation` on a name,
      `glGetUniformBlockIndex` on a name, or a location the caller already holds. */
  datatype UniformTarget =
    | NamedLocation(name: string)
    | BlockIndex(name: string)
    | RawLocation(location: int)

  /** The `glUniform*` family a setter ends in. */
  datatype UniformKind = BoolKind | IntKind | FloatKind | Vec2Kind | Vec3Kind | Vec4Kind | Mat3Kind | Mat4Kind

  /** A value to upload; the payload (numbers, vectors, matrices) is opaque. */
  datatype UniformValue = UniformValue(kind: UniformKind, payload: nat, transpose: bool)

  datatype Call =
    | CreateProgram(program: nat)
    | CreateShader(shader: nat, stage: Stage)
    | ShaderSource(shader: nat, code: string)
    | CompileShader(shader: nat)
    | CompileFailureLog(fileName: string, shader: nat)
    | AttachShader(program: nat, shader: nat)
    | LinkProgram(program: nat)
    | LinkFailureLog(program: nat)
    | DeleteShader(shader: nat)
    | UseProgram(program: nat)
    | Upload(target: UniformTarget, value: UniformValue)

  /** Calls that only write to the engine's log. */
  predicate IsLog(c: Call)
  {
    c.CompileFailureLog? || c.LinkFailureLog?
  }

  /** The calls that reach the driver, with the log lines removed. */
  function DriverCalls(calls: seq<Call>): (r: seq<Call>)
    ensures |r| <= |calls|
    ensures forall c :: c in r <==> c in calls && !IsLog(c)
  {
    if |calls| == 0 then []
    else (if IsLog(calls[0]) then [] else [calls[0]]) + DriverCalls(calls[1..])
  }

  lemma {:induction false} DriverCallsAppend(a: seq<Call>, b: seq<Call>)
    ensures DriverCalls(a + b) == DriverCalls(a) + DriverCalls(b)
    decreases |a|
  {
    if |a| == 0 {
      assert a + b == b;
    } else {
      assert (a + b)[1..] == a[1..] + b;
      DriverCallsAppend(a[1..], b);
    }
  }

  /** A trace without log lines reaches the driver unchanged. */
  lemma {:induction false} DriverCallsKeep(calls: seq<Call>)
    requires forall i :: 0 <= i < |calls| ==> !IsLog(calls[i])
    ensures DriverCalls(calls) == calls
    decreases |calls|
  {
    if |calls| > 0 {
      DriverCallsKeep(calls[1..]);
      assert calls == [calls[0]] + calls[1..];
    }
  }

  /** Shader objects as the driver sees them: which exist, which have been
      attached to some program, and which were attached when some program
      was linked. The sets are not keyed by program: `linked` means "linked
      into some program", since each build attaches to and links only the
      program it creates. */
  datatype Objects = Objects(live: set<nat>, attached: set<nat>, linked: set<nat>)

  const NoObjects: Objects := Objects({}, {}, {})

  function Step(o: Objects, c: Call): Objects
  {
    match c
    case CreateShader(h, _) => o.(live := o.live + {h})
    case AttachShader(_, h) => o.(attached := o.attached + {h})
    case LinkProgram(_) => o.(linked := o.linked + o.attached)
    case DeleteShader(h) => o.(live := o.live - {h})
    case _ => o
  }

  /** The objects after a trace, applying its calls left to right. */
  function Replay(o: Objects, calls: seq<Call>): Objects
    decreases |calls|
  {
    if |calls| == 0 then o else Replay(Step(o, calls[0]), calls[1..])
  }

  lemma {:induction false} ReplayAppend(o: Objects, a: seq<Call>, b: seq<Call>)
    ensures Replay(o, a + b) == Replay(Replay(o, a), b)
    decreases |a|
  {
    if |a| == 0 {
      assert a + b == b;
    } else {
      assert (a + b)[1..] == a[1..] + b;
      ReplayAppend(Step(o, a[0]), a[1..], b);
    }
  }
}
