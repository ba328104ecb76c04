/** Building a GL program from stage sources, as the calls it makes: every
    stage object is created, given its source, compiled, attached, and, once
    the program is linked, deleted, whatever the compile and link outcomes.
    Object names and outcomes belong to the driver and are parameters:
    `handle(k)` is the name `glCreateShader` returns for the k-th stage object
    the build creates, `compiled(k)` says whether that object compiled, and
    `prior` is what the uninitialised `success` held before the status query
    that follows the link. */
module ShaderProgram {
  import opened Base
  import opened Gl
  import ShaderSource
  import ShaderName

  // ---------------------------------------------------------------------------
  // One stage object.

  /** `loadShader(code, type, fileName)`: create, upload, compile, and log the
      driver's message when compilation failed. The object is returned either way. */
  function LoadShader(code: string, st: Stage, fileName: string, shader: nat, compiled: bool): (r: seq<Call>)
    ensures |r| > 0 && r[0] == CreateShader(shader, st)
  {
    [CreateShader(shader, st), ShaderSource(shader, code), CompileShader(shader)]
      + (if compiled then [] else [CompileFailureLog(fileName, shader)])
  }

  /** A failed compilation, and only a failed one, is logged with its label. */
  lemma LoadShaderLogsFailure(code: string, st: Stage, fileName: string, shader: nat, compiled: bool)
    ensures CompileFailureLog(fileName, shader) in LoadShader(code, st, fileName, shader, compiled) <==> !compiled
  {
    var r := LoadShader(code, st, fileName, shader, compiled);
    if !compiled {
      assert r[3] == CompileFailureLog(fileName, shader);
    }
  }

  /** The driver sees the same three calls whether or not compilation failed. */
  lemma LoadShaderDriverCalls(code: string, st: Stage, fileName: string, shader: nat, compiled: bool)
    ensures DriverCalls(LoadShader(code, st, fileName, shader, compiled))
         == [CreateShader(shader, st), ShaderSource(shader, code), CompileShader(shader)]
  {
    var head := [CreateShader(shader, st), ShaderSource(shader, code), CompileShader(shader)];
    var log := if compiled then [] else [CompileFailureLog(fileName, shader)];
    DriverCallsAppend(head, log);
    DriverCallsKeep(head);
  }

  /** A compiled stage object exists afterwards and is attached to nothing yet. */
  lemma ReplayLoadShader(o: Objects, code: string, st: Stage, fileName: string, shader: nat, compiled: bool)
    ensures Replay(o, LoadShader(code, st, fileName, shader, compiled)) == o.(live := o.live + {shader})
  {
    var r := LoadShader(code, st, fileName, shader, compiled);
    var o1 := Step(o, r[0]);
    assert Replay(o, r) == Replay(o1, r[1..]);
    assert Replay(o1, r[1..]) == Replay(o1, r[1..][1..]);
    assert Replay(o1, r[1..][1..]) == Replay(o1, r[1..][1..][1..]);
    if !compiled {
      assert Replay(o1, r[1..][1..][1..]) == Replay(o1, r[1..][1..][1..][1..]);
    }
  }

  // ---------------------------------------------------------------------------
  // The link status query.

  const GL_COMPILE_STATUS: int := 0x8B81
  const GL_LINK_STATUS: int := 0x8B82

  /** What `glGetProgramiv(program, pname, &success)` leaves in `success`,
      which held `prior` before. `GL_LINK_STATUS` reports the link outcome;
      `GL_COMPILE_STATUS` is not a program parameter, so the call only raises
      `GL_INVALID_ENUM` and writes nothing. */
  function ProgramStatus(pname: int, linked: bool, prior: int): (r: int)
    requires pname == GL_COMPILE_STATUS || pname == GL_LINK_STATUS
  {
    if pname == GL_LINK_STATUS then (if linked then 1 else 0) else prior
  }

  /** `if (!success)` after the query: whether the program's log is printed. */
  function LinkFailureReported(pname: int, linked: bool, prior: int): bool
    requires pname == GL_COMPILE_STATUS || pname == GL_LINK_STATUS
  {
    ProgramStatus(pname, linked, prior) == 0
  }

  /** The check as written queries `GL_COMPILE_STATUS`: whether the failure
      is reported follows the uninitialised `success`, not the link. */
  lemma LinkCheckAsWritten(linked: bool, prior: int)
    ensures LinkFailureReported(GL_COMPILE_STATUS, linked, prior) <==> prior == 0
  {
  }

  /** A failed link that goes unreported, and a good link reported as failed. */
  lemma LinkCheckAsWrittenCounterexample()
    ensures !LinkFailureReported(GL_COMPILE_STATUS, false, 1)
    ensures LinkFailureReported(GL_COMPILE_STATUS, true, 0)
  {
  }

  /** Querying `GL_LINK_STATUS` reports exactly the failed links, whatever
      `success` held before. */
  lemma LinkCheckCorrected(linked: bool, prior: int)
    ensures LinkFailureReported(GL_LINK_STATUS, linked, prior) <==> !linked
  {
  }

  /** The log line that follows linking when the status query `pname`
      leaves `success` at 0. Queried with `GL_LINK_STATUS` it marks exactly
      the failed links; queried with `GL_COMPILE_STATUS` it follows the stale
      value. */
  function LinkReport(program: nat, pname: int, linked: bool, prior: int): (r: seq<Call>)
    requires pname == GL_COMPILE_STATUS || pname == GL_LINK_STATUS
    ensures r == [LinkFailureLog(program)] || r == []
    ensures pname == GL_LINK_STATUS ==> (|r| == 1 <==> !linked)
    ensures pname == GL_COMPILE_STATUS ==> (|r| == 1 <==> prior == 0)
  {
    if LinkFailureReported(pname, linked, prior) then [LinkFailureLog(program)] else []
  }

  // ---------------------------------------------------------------------------
  // The map-driven build.

  /** The hash map's iteration order is unknown: it is given as a ranking of
      all three stages, which the map's keys follow. */
  predicate IsRanking(rank: seq<Stage>)
  {
    && |rank| == 3
    && Vertex in rank && Fragment in rank && Geometry in rank
  }

  /** The map's entries in iteration order. */
  function Entries(m: map<Stage, string>, rank: seq<Stage>): (r: seq<(Stage, string)>)
    ensures |r| <= |rank|
    ensures forall i :: 0 <= i < |r| ==> r[i].0 in m && r[i].0 in rank && r[i].1 == m[r[i].0]
    ensures forall st :: st in m && st in rank ==> (st, m[st]) in r
    decreases |rank|
  {
    if |rank| == 0 then []
    else (if rank[0] in m then [(rank[0], m[rank[0]])] else []) + Entries(m, rank[1..])
  }

  /** No key appears twice among the entries. */
  predicate KeysDistinct(es: seq<(Stage, string)>)
  {
    forall i, j :: 0 <= i < j < |es| ==> es[i].0 != es[j].0
  }

  lemma KeysDistinctCons(e: (Stage, string), tail: seq<(Stage, string)>)
    requires KeysDistinct(tail)
    requires forall i :: 0 <= i < |tail| ==> tail[i].0 != e.0
    ensures KeysDistinct([e] + tail)
  {
    var r := [e] + tail;
    forall i, j | 0 <= i < j < |r|
      ensures r[i].0 != r[j].0
    {
      assert r[j] == tail[j - 1];
      if i > 0 {
        assert r[i] == tail[i - 1];
      }
    }
  }

  /** A ranking lists each stage once, so each key is visited once. */
  lemma {:induction false} EntriesDistinct(m: map<Stage, string>, rank: seq<Stage>)
    requires forall i, j :: 0 <= i < j < |rank| ==> rank[i] != rank[j]
    ensures KeysDistinct(Entries(m, rank))
    decreases |rank|
  {
    if |rank| > 0 {
      var later := rank[1..];
      EntriesDistinct(m, later);
      var tail := Entries(m, later);
      assert rank[0] !in later by {
        forall k | 0 <= k < |later|
          ensures later[k] != rank[0]
        {
          assert later[k] == rank[k + 1];
        }
      }
      if rank[0] in m {
        KeysDistinctCons((rank[0], m[rank[0]]), tail);
        assert Entries(m, rank) == [(rank[0], m[rank[0]])] + tail;
      } else {
        assert Entries(m, rank) == tail;
      }
    }
  }

  /** What the driver hands out for the `n` stage objects created from
      creation index `k` on: their names, or whether they compiled. */
  function Issued<T>(f: nat -> T, k: nat, n: nat): (xs: seq<T>)
    ensures |xs| == n
    ensures forall i :: 0 <= i < n ==> xs[i] == f(k + i)
    decreases n
  {
    if n == 0 then [] else [f(k)] + Issued(f, k + 1, n - 1)
  }

  /** One pass of the loop over the map: load the stage, attach it. */
  function LoadAndAttach(e: (Stage, string), fileName: string, program: nat, shader: nat, compiled: bool): seq<Call>
  {
    LoadShader(e.1, e.0, fileName, shader, compiled) + [AttachShader(program, shader)]
  }

  /** The loop over the map: entry `i` becomes stage object `hs[i]`, which
      compiles when `cs[i]` holds. */
  function Attachments(es: seq<(Stage, string)>, fileName: string, program: nat,
                       hs: seq<nat>, cs: seq<bool>): seq<Call>
    requires |hs| == |es| && |cs| == |es|
    decreases |es|
  {
    if |es| == 0 then []
    else LoadAndAttach(es[0], fileName, program, hs[0], cs[0])
         + Attachments(es[1..], fileName, program, hs[1..], cs[1..])
  }

  /** The loop after linking: delete every stage object. */
  function Deletes(hs: seq<nat>): (r: seq<Call>)
    ensures |r| == |hs|
    ensures forall i :: 0 <= i < |hs| ==> r[i] == DeleteShader(hs[i])
    decreases |hs|
  {
    if |hs| == 0 then [] else [DeleteShader(hs[0])] + Deletes(hs[1..])
  }

  /** After attaching: link, report a failed link, delete the stage objects. */
  function LinkAndRelease(program: nat, pname: int, linked: bool, prior: int, hs: seq<nat>): seq<Call>
    requires pname == GL_COMPILE_STATUS || pname == GL_LINK_STATUS
  {
    [LinkProgram(program)] + LinkReport(program, pname, linked, prior) + Deletes(hs)
  }

  /** A build: the program's name, its stage objects in creation order, and
      the calls made. */
  datatype Build = Build(program: nat, shaders: seq<nat>, trace: seq<Call>)

  /** `loadProgram(shaderMap, fileName)`. `pname` is the status parameter
      queried after the link: `GL_COMPILE_STATUS` in the source,
      `GL_LINK_STATUS` as intended; `prior` is what `success` held before. */
  function LoadProgram(m: map<Stage, string>, rank: seq<Stage>, fileName: string, program: nat,
                       handle: nat -> nat, compiled: nat -> bool, pname: int, linked: bool, prior: int): (b: Build)
    requires pname == GL_COMPILE_STATUS || pname == GL_LINK_STATUS
    ensures b.program == program
    ensures |b.trace| > 0 && b.trace[0] == CreateProgram(program)
  {
    var es := Entries(m, rank);
    var hs := Issued(handle, 0, |es|);
    Build(program, hs,
      [CreateProgram(program)]
        + (Attachments(es, fileName, program, hs, Issued(compiled, 0, |es|)) + LinkAndRelease(program, pname, linked, prior, hs)))
  }

  /** The set of names in a sequence of them. */
  function Names(hs: seq<nat>): set<nat>
  {
    set h | h in hs
  }

  /** The objects `hs` created and attached on top of `o`. */
  function Added(o: Objects, hs: set<nat>): Objects
  {
    o.(live := o.live + hs, attached := o.attached + hs)
  }

  lemma AddedTwice(o: Objects, a: set<nat>, b: set<nat>)
    ensures Added(Added(o, a), b) == Added(o, a + b)
  {
  }

  lemma ReplayLoadAndAttach(o: Objects, e: (Stage, string), fileName: string, program: nat, shader: nat, compiled: bool)
    ensures Replay(o, LoadAndAttach(e, fileName, program, shader, compiled)) == Added(o, {shader})
  {
    var load := LoadShader(e.1, e.0, fileName, shader, compiled);
    ReplayAppend(o, load, [AttachShader(program, shader)]);
    ReplayLoadShader(o, e.1, e.0, fileName, shader, compiled);
  }

  lemma {:induction false} ReplayAttachments(o: Objects, es: seq<(Stage, string)>, fileName: string, program: nat,
                                             hs: seq<nat>, cs: seq<bool>)
    requires |hs| == |es| && |cs| == |es|
    ensures Replay(o, Attachments(es, fileName, program, hs, cs)) == Added(o, Names(hs))
    decreases |es|
  {
    if |es| > 0 {
      var piece := LoadAndAttach(es[0], fileName, program, hs[0], cs[0]);
      var rest := Attachments(es[1..], fileName, program, hs[1..], cs[1..]);
      var o1 := Added(o, {hs[0]});
      ReplayLoadAndAttach(o, es[0], fileName, program, hs[0], cs[0]);
      ReplayAttachments(o1, es[1..], fileName, program, hs[1..], cs[1..]);
      ReplayThen(o, piece, o1, rest, Added(o1, Names(hs[1..])));
      NamesCons(hs);
      AddedTwice(o, {hs[0]}, Names(hs[1..]));
    }
  }

  /** Replaying two pieces one after the other. */
  lemma ReplayThen(o: Objects, a: seq<Call>, o1: Objects, b: seq<Call>, o2: Objects)
    requires Replay(o, a) == o1 && Replay(o1, b) == o2
    ensures Replay(o, a + b) == o2
  {
    ReplayAppend(o, a, b);
  }

  lemma NamesCons(hs: seq<nat>)
    requires |hs| > 0
    ensures Names(hs) == {hs[0]} + Names(hs[1..])
  {
    assert forall h :: h in hs <==> h == hs[0] || h in hs[1..];
  }

  lemma {:induction false} ReplayDeletes(o: Objects, hs: seq<nat>)
    ensures Replay(o, Deletes(hs)) == o.(live := o.live - Names(hs))
    decreases |hs|
  {
    if |hs| > 0 {
      ReplayDeletes(Step(o, DeleteShader(hs[0])), hs[1..]);
      NamesCons(hs);
    }
  }

  lemma ReplayLinkReport(o: Objects, program: nat, pname: int, linked: bool, prior: int)
    requires pname == GL_COMPILE_STATUS || pname == GL_LINK_STATUS
    ensures Replay(o, LinkReport(program, pname, linked, prior)) == o
  {
    if LinkFailureReported(pname, linked, prior) {
      assert Replay(o, LinkReport(program, pname, linked, prior)) == Replay(o, []);
    }
  }

  /** Linking records what is attached; the stage objects are then gone. */
  lemma ReplayLinkAndRelease(o: Objects, program: nat, pname: int, linked: bool, prior: int, hs: seq<nat>)
    requires pname == GL_COMPILE_STATUS || pname == GL_LINK_STATUS
    ensures Replay(o, LinkAndRelease(program, pname, linked, prior, hs))
         == o.(linked := o.linked + o.attached, live := o.live - Names(hs))
  {
    var o1 := o.(linked := o.linked + o.attached);
    ReplayAppend(o, [LinkProgram(program)] + LinkReport(program, pname, linked, prior), Deletes(hs));
    ReplayAppend(o, [LinkProgram(program)], LinkReport(program, pname, linked, prior));
    assert Replay(o, [LinkProgram(program)]) == o1;
    ReplayLinkReport(o1, program, pname, linked, prior);
    ReplayDeletes(o1, hs);
  }

  /** The lifetime of the stage objects: every one the build creates is
      attached before the link, so the link sees it, and no longer exists
      afterwards, whether or not it compiled and whether or not the program
      linked. Objects that existed before are untouched. */
  lemma LoadProgramLifetime(o: Objects, m: map<Stage, string>, rank: seq<Stage>, fileName: string, program: nat,
                            handle: nat -> nat, compiled: nat -> bool, pname: int, linked: bool, prior: int)
    requires pname == GL_COMPILE_STATUS || pname == GL_LINK_STATUS
    ensures var b := LoadProgram(m, rank, fileName, program, handle, compiled, pname, linked, prior);
      var after := Replay(o, b.trace);
      && after.live == o.live - Names(b.shaders)
      && after.attached == o.attached + Names(b.shaders)
      && after.linked == o.linked + o.attached + Names(b.shaders)
  {
    var es := Entries(m, rank);
    var hs := Issued(handle, 0, |es|);
    var cs := Issued(compiled, 0, |es|);
    var att := Attachments(es, fileName, program, hs, cs);
    var tail := LinkAndRelease(program, pname, linked, prior, hs);
    var o1 := Added(o, Names(hs));
    assert Replay(o, [CreateProgram(program)] + (att + tail)) == Replay(o, att + tail);
    ReplayAppend(o, att, tail);
    ReplayAttachments(o, es, fileName, program, hs, cs);
    ReplayLinkAndRelease(o1, program, pname, linked, prior, hs);
  }

  lemma {:induction false} AttachmentsDriverCalls(es: seq<(Stage, string)>, fileName: string, program: nat,
                                                  hs: seq<nat>, c1: seq<bool>, c2: seq<bool>)
    requires |hs| == |es| && |c1| == |es| && |c2| == |es|
    ensures DriverCalls(Attachments(es, fileName, program, hs, c1))
         == DriverCalls(Attachments(es, fileName, program, hs, c2))
    decreases |es|
  {
    if |es| > 0 {
      var h := hs[0];
      var a := [AttachShader(program, h)];
      DriverCallsAppend(LoadAndAttach(es[0], fileName, program, h, c1[0]), Attachments(es[1..], fileName, program, hs[1..], c1[1..]));
      DriverCallsAppend(LoadAndAttach(es[0], fileName, program, h, c2[0]), Attachments(es[1..], fileName, program, hs[1..], c2[1..]));
      DriverCallsAppend(LoadShader(es[0].1, es[0].0, fileName, h, c1[0]), a);
      DriverCallsAppend(LoadShader(es[0].1, es[0].0, fileName, h, c2[0]), a);
      LoadShaderDriverCalls(es[0].1, es[0].0, fileName, h, c1[0]);
      LoadShaderDriverCalls(es[0].1, es[0].0, fileName, h, c2[0]);
      AttachmentsDriverCalls(es[1..], fileName, program, hs[1..], c1[1..], c2[1..]);
    }
  }

  lemma LinkReportDriverCalls(program: nat, pname: int, linked: bool, prior: int)
    requires pname == GL_COMPILE_STATUS || pname == GL_LINK_STATUS
    ensures DriverCalls(LinkReport(program, pname, linked, prior)) == []
  {
    if LinkFailureReported(pname, linked, prior) {
      assert DriverCalls(LinkReport(program, pname, linked, prior)) == [] + DriverCalls([]);
    }
  }

  /** Compile and link failures only add log lines: the calls that reach the
      driver are the same for every outcome. */
  lemma LoadProgramOutcomeIndependent(m: map<Stage, string>, rank: seq<Stage>, fileName: string, program: nat,
                                      handle: nat -> nat, pname: int,
                                      c1: nat -> bool, l1: bool, s1: int, c2: nat -> bool, l2: bool, s2: int)
    requires pname == GL_COMPILE_STATUS || pname == GL_LINK_STATUS
    ensures DriverCalls(LoadProgram(m, rank, fileName, program, handle, c1, pname, l1, s1).trace)
         == DriverCalls(LoadProgram(m, rank, fileName, program, handle, c2, pname, l2, s2).trace)
  {
    var es := Entries(m, rank);
    var hs := Issued(handle, 0, |es|);
    var a1 := Attachments(es, fileName, program, hs, Issued(c1, 0, |es|));
    var a2 := Attachments(es, fileName, program, hs, Issued(c2, 0, |es|));
    var t1 := LinkAndRelease(program, pname, l1, s1, hs);
    var t2 := LinkAndRelease(program, pname, l2, s2, hs);
    var p := [CreateProgram(program)];
    DriverCallsAppend(p, a1 + t1);
    DriverCallsAppend(p, a2 + t2);
    DriverCallsAppend(a1, t1);
    DriverCallsAppend(a2, t2);
    AttachmentsDriverCalls(es, fileName, program, hs, Issued(c1, 0, |es|), Issued(c2, 0, |es|));
    var k := [LinkProgram(program)];
    DriverCallsAppend(k + LinkReport(program, pname, l1, s1), Deletes(hs));
    DriverCallsAppend(k + LinkReport(program, pname, l2, s2), Deletes(hs));
    DriverCallsAppend(k, LinkReport(program, pname, l1, s1));
    DriverCallsAppend(k, LinkReport(program, pname, l2, s2));
    LinkReportDriverCalls(program, pname, l1, s1);
    LinkReportDriverCalls(program, pname, l2, s2);
  }

  /** One stage object per map entry: a ranking visits every key once. */
  lemma LoadProgramOnePerStage(m: map<Stage, string>, rank: seq<Stage>, fileName: string, program: nat,
                               handle: nat -> nat, compiled: nat -> bool, pname: int, linked: bool, prior: int)
    requires pname == GL_COMPILE_STATUS || pname == GL_LINK_STATUS
    requires IsRanking(rank)
    ensures |LoadProgram(m, rank, fileName, program, handle, compiled, pname, linked, prior).shaders| == |m|
  {
    var es := Entries(m, rank);
    RankingDistinct(rank);
    EntriesDistinct(m, rank);
    EntriesKeys(m, rank);
    DistinctCount(es);
  }

  lemma RankingDistinct(rank: seq<Stage>)
    requires IsRanking(rank)
    ensures forall i, j :: 0 <= i < j < |rank| ==> rank[i] != rank[j]
  {
    assert {rank[0], rank[1], rank[2]} == {Vertex, Fragment, Geometry};
  }

  /** Under a ranking the entries cover exactly the map's keys. */
  lemma EntriesKeys(m: map<Stage, string>, rank: seq<Stage>)
    requires IsRanking(rank)
    ensures var es := Entries(m, rank); (set i | 0 <= i < |es| :: es[i].0) == m.Keys
  {
    var es := Entries(m, rank);
    forall st | st in m
      ensures exists i :: 0 <= i < |es| && es[i].0 == st
    {
      assert st in rank by {
        assert st == Vertex || st == Fragment || st == Geometry;
      }
      assert (st, m[st]) in es;
    }
  }

  /** Distinct keys in a list of entries number as many as the entries. */
  lemma {:induction false} DistinctCount(es: seq<(Stage, string)>)
    requires KeysDistinct(es)
    ensures |set i | 0 <= i < |es| :: es[i].0| == |es|
    decreases |es|
  {
    if |es| > 0 {
      var tail := es[1..];
      DistinctCount(tail);
      var all := set i | 0 <= i < |es| :: es[i].0;
      var rest := set i | 0 <= i < |tail| :: tail[i].0;
      assert all == {es[0].0} + rest by {
        forall st | st in all
          ensures st in {es[0].0} + rest
        {
          var i :| 0 <= i < |es| && es[i].0 == st;
          if i > 0 {
            assert tail[i - 1].0 == st;
          }
        }
      }
      assert es[0].0 !in rest;
    }
  }

  // ---------------------------------------------------------------------------
  // The three-object build.

  /** Attach each of the objects to the program, in order. */
  function Attaches(program: nat, hs: seq<nat>): (r: seq<Call>)
    ensures |r| == |hs|
    ensures forall i :: 0 <= i < |hs| ==> r[i] == AttachShader(program, hs[i])
    decreases |hs|
  {
    if |hs| == 0 then [] else [AttachShader(program, hs[0])] + Attaches(program, hs[1..])
  }

  lemma {:induction false} ReplayAttaches(o: Objects, program: nat, hs: seq<nat>)
    ensures Replay(o, Attaches(program, hs)) == o.(attached := o.attached + Names(hs))
    decreases |hs|
  {
    if |hs| > 0 {
      ReplayAttaches(Step(o, AttachShader(program, hs[0])), program, hs[1..]);
      NamesCons(hs);
    }
  }

  /** The objects the three-object build uses: geometry only when its name is not 0. */
  function IdList(vertex: nat, fragment: nat, geometry: nat): (hs: seq<nat>)
    ensures geometry in hs <==> geometry != 0 || geometry == vertex || geometry == fragment
  {
    [vertex, fragment] + (if geometry != 0 then [geometry] else [])
  }

  /** `loadProgram(vertexId, fragmentId, geometryId)`. */
  function LoadProgramIds(program: nat, vertex: nat, fragment: nat, geometry: nat,
                          pname: int, linked: bool, prior: int): (r: seq<Call>)
    requires pname == GL_COMPILE_STATUS || pname == GL_LINK_STATUS
    ensures |r| > 0 && r[0] == CreateProgram(program)
  {
    var hs := IdList(vertex, fragment, geometry);
    [CreateProgram(program)] + (Attaches(program, hs) + LinkAndRelease(program, pname, linked, prior, hs))
  }

  /** The three-object build keeps the same lifetime discipline; a geometry
      name of 0 is neither attached nor deleted. */
  lemma LoadProgramIdsLifetime(o: Objects, program: nat, vertex: nat, fragment: nat, geometry: nat,
                               pname: int, linked: bool, prior: int)
    requires pname == GL_COMPILE_STATUS || pname == GL_LINK_STATUS
    ensures var hs := {vertex, fragment} + (if geometry != 0 then {geometry} else {});
      var after := Replay(o, LoadProgramIds(program, vertex, fragment, geometry, pname, linked, prior));
      && after.live == o.live - hs
      && after.attached == o.attached + hs
      && after.linked == o.linked + o.attached + hs
  {
    var hs := IdList(vertex, fragment, geometry);
    var att := Attaches(program, hs);
    var tail := LinkAndRelease(program, pname, linked, prior, hs);
    assert Replay(o, [CreateProgram(program)] + (att + tail)) == Replay(o, att + tail);
    ReplayAppend(o, att, tail);
    ReplayAttaches(o, program, hs);
    ReplayLinkAndRelease(o.(attached := o.attached + Names(hs)), program, pname, linked, prior, hs);
    NamesIdList(vertex, fragment, geometry);
  }

  lemma NamesIdList(vertex: nat, fragment: nat, geometry: nat)
    ensures Names(IdList(vertex, fragment, geometry)) == {vertex, fragment} + (if geometry != 0 then {geometry} else {})
  {
    var hs := IdList(vertex, fragment, geometry);
    NamesCons(hs);
    NamesCons(hs[1..]);
    if geometry != 0 {
      NamesCons(hs[2..]);
      assert hs[2..][1..] == [];
    } else {
      assert hs[1..][1..] == [];
    }
  }

  /** How many calls the three-object build makes: one attach and one delete
      per object, with the geometry object counted only when its name is not 0. */
  lemma LoadProgramIdsLength(program: nat, vertex: nat, fragment: nat, geometry: nat,
                              pname: int, linked: bool, prior: int)
    requires pname == GL_COMPILE_STATUS || pname == GL_LINK_STATUS
    ensures pname == GL_COMPILE_STATUS ==>
      |LoadProgramIds(program, vertex, fragment, geometry, pname, linked, prior)|
        == 2 + 2 * (if geometry != 0 then 3 else 2) + (if prior == 0 then 1 else 0)
    ensures pname == GL_LINK_STATUS ==>
      |LoadProgramIds(program, vertex, fragment, geometry, pname, linked, prior)|
        == 2 + 2 * (if geometry != 0 then 3 else 2) + (if linked then 0 else 1)
  {
  }

  /** Whether the three-object build logs the program's link failure. As
      written the log follows the stale `success`, so a failed link can go
      unreported and a good one can be logged; querying `GL_LINK_STATUS` logs
      exactly the failed links. */
  lemma LoadProgramIdsLinkLog(program: nat, vertex: nat, fragment: nat, geometry: nat,
                              pname: int, linked: bool, prior: int)
    requires pname == GL_COMPILE_STATUS || pname == GL_LINK_STATUS
    ensures pname == GL_COMPILE_STATUS ==>
      (LinkFailureLog(program) in LoadProgramIds(program, vertex, fragment, geometry, pname, linked, prior) <==> prior == 0)
    ensures pname == GL_LINK_STATUS ==>
      (LinkFailureLog(program) in LoadProgramIds(program, vertex, fragment, geometry, pname, linked, prior) <==> !linked)
  {
    var hs := IdList(vertex, fragment, geometry);
    var log := LinkFailureLog(program);
    var report := LinkReport(program, pname, linked, prior);
    var tail := LinkAndRelease(program, pname, linked, prior, hs);
    assert log in tail <==> log in report by {
      assert log !in Deletes(hs);
    }
    assert log in LoadProgramIds(program, vertex, fragment, geometry, pname, linked, prior) <==> log in tail by {
      assert log !in Attaches(program, hs);
    }
  }

  /** The three-object build as written, on a failed link whose `success`
      held 1: no log line. */
  lemma LoadProgramIdsMissesFailedLink(program: nat, vertex: nat, fragment: nat)
    ensures LinkFailureLog(program) !in LoadProgramIds(program, vertex, fragment, 0, GL_COMPILE_STATUS, false, 1)
  {
    LoadProgramIdsLinkLog(program, vertex, fragment, 0, GL_COMPILE_STATUS, false, 1);
  }

  // ---------------------------------------------------------------------------
  // Compiling two or three stages.

  /** One stage to compile: the label its compile log carries (the file name,
      or "" for in-memory code) and its code. */
  datatype StageInput = StageInput(fileName: string, code: string)

  /** `compile(...)`: load vertex, fragment, and the geometry stage when one
      is given, then build the program from their names. Creation indices 0,
      1 and 2 name the three objects in that order. */
  function Compile(vertex: StageInput, fragment: StageInput, geometry: Option<StageInput>, program: nat,
                   handle: nat -> nat, compiled: nat -> bool, linked: bool, prior: int): (r: seq<Call>)
    ensures |r| > 0 && r[0] == CreateShader(handle(0), Vertex)
  {
    LoadStages(vertex, fragment, geometry, handle, compiled)
      + LoadProgramIds(program, handle(0), handle(1), if geometry.Some? then handle(2) else 0, GL_COMPILE_STATUS, linked, prior)
  }

  /** The stage loads `compile` makes before building the program. */
  function LoadStages(vertex: StageInput, fragment: StageInput, geometry: Option<StageInput>,
                      handle: nat -> nat, compiled: nat -> bool): seq<Call>
  {
    LoadShader(vertex.code, Vertex, vertex.fileName, handle(0), compiled(0))
      + LoadShader(fragment.code, Fragment, fragment.fileName, handle(1), compiled(1))
      + (if geometry.Some? then LoadShader(geometry.value.code, Geometry, geometry.value.fileName, handle(2), compiled(2)) else [])
  }

  /** The stage objects `compile` creates. */
  function Created(handle: nat -> nat, geometry: bool): set<nat>
  {
    {handle(0), handle(1)} + (if geometry then {handle(2)} else {})
  }

  /** After `compile`, the vertex and fragment objects, and the geometry
      object when one was created with a non-zero name, were linked into the
      program and no longer exist. A geometry object the driver named 0 is
      created but neither attached nor deleted. */
  lemma CompileLifetime(o: Objects, vertex: StageInput, fragment: StageInput, geometry: Option<StageInput>,
                        program: nat, handle: nat -> nat, compiled: nat -> bool, linked: bool, prior: int)
    ensures var g := if geometry.Some? then handle(2) else 0;
      var used := {handle(0), handle(1)} + (if g != 0 then {g} else {});
      var after := Replay(o, Compile(vertex, fragment, geometry, program, handle, compiled, linked, prior));
      && after.live == (o.live + Created(handle, geometry.Some?)) - used
      && after.attached == o.attached + used
      && after.linked == o.linked + o.attached + used
  {
    var g := if geometry.Some? then handle(2) else 0;
    var loads := LoadStages(vertex, fragment, geometry, handle, compiled);
    var ids := LoadProgramIds(program, handle(0), handle(1), g, GL_COMPILE_STATUS, linked, prior);
    ReplayAppend(o, loads, ids);
    ReplayLoadStages(o, vertex, fragment, geometry, handle, compiled);
    LoadProgramIdsLifetime(o.(live := o.live + Created(handle, geometry.Some?)), program, handle(0), handle(1), g, GL_COMPILE_STATUS, linked, prior);
  }

  lemma ReplayLoadStages(o: Objects, vertex: StageInput, fragment: StageInput, geometry: Option<StageInput>,
                         handle: nat -> nat, compiled: nat -> bool)
    ensures Replay(o, LoadStages(vertex, fragment, geometry, handle, compiled))
         == o.(live := o.live + Created(handle, geometry.Some?))
  {
    var lv := LoadShader(vertex.code, Vertex, vertex.fileName, handle(0), compiled(0));
    var lf := LoadShader(fragment.code, Fragment, fragment.fileName, handle(1), compiled(1));
    var lg := if geometry.Some? then LoadShader(geometry.value.code, Geometry, geometry.value.fileName, handle(2), compiled(2)) else [];
    var o1 := o.(live := o.live + {handle(0)});
    var o2 := o1.(live := o1.live + {handle(1)});
    ReplayLoadShader(o, vertex.code, Vertex, vertex.fileName, handle(0), compiled(0));
    ReplayLoadShader(o1, fragment.code, Fragment, fragment.fileName, handle(1), compiled(1));
    ReplayThen(o, lv, o1, lf, o2);
    if geometry.Some? {
      ReplayLoadShader(o2, geometry.value.code, Geometry, geometry.value.fileName, handle(2), compiled(2));
      ReplayThen(o, lv + lf, o2, lg, o2.(live := o2.live + {handle(2)}));
    } else {
      assert lv + lf + lg == lv + lf;
    }
  }

  // ---------------------------------------------------------------------------
  // The shader object.

  /** What the model keeps of an `OpenGLShader`: its program and its name. */
  datatype Shader = Shader(id: nat, name: string)

  /** `OpenGLShader()`. */
  const DefaultShader: Shader := Shader(0, "")

  /** `OpenGLShader(shaderFile)` on a file holding `source`: split it, build
      the program from the stage map, and take the name from the path. A
      split that fails is the source's assertion, and no program is built. */
  function FromFile(path: string, source: string, rank: seq<Stage>, program: nat,
                    handle: nat -> nat, compiled: nat -> bool, linked: bool, prior: int)
    : (r: Result<(Shader, seq<Call>), ShaderSource.SplitError>)
    ensures r.Err? <==> ShaderSource.Sections(source).Err?
    ensures r.Ok? ==> r.value.0 == Shader(program, ShaderName.DisplayName(path))
    ensures r.Ok? ==> |r.value.1| > 0 && r.value.1[0] == CreateProgram(program)
  {
    match ShaderSource.Sections(source)
    case Err(e) => Err(e)
    case Ok(secs) =>
      var b := LoadProgram(ShaderSource.StageMap(secs), rank, path, program, handle, compiled, GL_COMPILE_STATUS, linked, prior);
      Ok((Shader(program, ShaderName.DisplayName(path)), b.trace))
  }

  /** The single-file constructor on a source that splits: one stage object
      per distinct stage the file names is created, and each ends attached,
      linked and deleted. A stage named twice is loaded once, from its last
      section. Objects that existed before are untouched. */
  lemma FromFileLifetime(o: Objects, path: string, source: string, rank: seq<Stage>, program: nat,
                         handle: nat -> nat, compiled: nat -> bool, linked: bool, prior: int)
    requires IsRanking(rank)
    ensures var r := FromFile(path, source, rank, program, handle, compiled, linked, prior);
      r.Ok? ==>
        var secs := ShaderSource.Sections(source).value;
        var stages := set i | 0 <= i < |secs| :: secs[i].stage;
        var made := Names(Issued(handle, 0, |stages|));
        var after := Replay(o, r.value.1);
        && after.live == o.live - made
        && after.attached == o.attached + made
        && after.linked == o.linked + o.attached + made
  {
    if ShaderSource.Sections(source).Ok? {
      var secs := ShaderSource.Sections(source).value;
      var stages := set i | 0 <= i < |secs| :: secs[i].stage;
      var m := ShaderSource.StageMap(secs);
      forall st: Stage
        ensures st in m.Keys <==> st in stages
      {
        ShaderSource.StageMapLastWins(secs, st);
      }
      assert m.Keys == stages;
      LoadProgramLifetime(o, m, rank, path, program, handle, compiled, GL_COMPILE_STATUS, linked, prior);
      LoadProgramOnePerStage(m, rank, path, program, handle, compiled, GL_COMPILE_STATUS, linked, prior);
    }
  }

  /** `OpenGLShader(vertexFile, fragmentFile, geometryFile)`: the name comes
      from the vertex file's path. */
  function FromFiles(vertex: StageInput, fragment: StageInput, geometry: Option<StageInput>, program: nat,
                     handle: nat -> nat, compiled: nat -> bool, linked: bool, prior: int): (r: (Shader, seq<Call>))
    ensures r.0 == Shader(program, ShaderName.DisplayName(vertex.fileName))
  {
    (Shader(program, ShaderName.DisplayName(vertex.fileName)), Compile(vertex, fragment, geometry, program, handle, compiled, linked, prior))
  }

  /** `OpenGLShader(dummy, shaderName, vertexCode, fragmentCode, geometryCode)`:
      the name is given, and compile logs carry an empty label. */
  function FromCode(name: string, vertex: string, fragment: string, geometry: Option<string>, program: nat,
                    handle: nat -> nat, compiled: nat -> bool, linked: bool, prior: int): (r: (Shader, seq<Call>))
    ensures r.0 == Shader(program, name)
  {
    var g := if geometry.Some? then Some(StageInput("", geometry.value)) else None;
    (Shader(program, name), Compile(StageInput("", vertex), StageInput("", fragment), g, program, handle, compiled, linked, prior))
  }

  // ---------------------------------------------------------------------------
  // The order of a build: attach, link, then release.

  /** No call of `t` deletes a shader object. */
  predicate NoDeletes(t: seq<Call>)
  {
    forall i :: 0 <= i < |t| ==> !t[i].DeleteShader?
  }

  /** `t` links `program` at some position `k` with every delete after it
      and every attach before it: the stage objects are released only once
      the link has taken them in. */
  predicate LinkBetween(t: seq<Call>, program: nat)
  {
    exists k :: 0 <= k < |t| && t[k] == LinkProgram(program)
      && (forall i :: 0 <= i < |t| && t[i].DeleteShader? ==> k < i)
      && (forall i :: 0 <= i < |t| && t[i].AttachShader? ==> i < k)
  }

  lemma NoDeletesAppend(a: seq<Call>, b: seq<Call>)
    requires NoDeletes(a) && NoDeletes(b)
    ensures NoDeletes(a + b)
  {
    forall i | 0 <= i < |a + b|
      ensures !(a + b)[i].DeleteShader?
    {
      if i >= |a| {
        assert (a + b)[i] == b[i - |a|];
      }
    }
  }

  lemma {:induction false} AttachmentsNoDeletes(es: seq<(Stage, string)>, fileName: string, program: nat,
                                                hs: seq<nat>, cs: seq<bool>)
    requires |hs| == |es| && |cs| == |es|
    ensures NoDeletes(Attachments(es, fileName, program, hs, cs))
    decreases |es|
  {
    if |es| > 0 {
      var a := LoadAndAttach(es[0], fileName, program, hs[0], cs[0]);
      assert NoDeletes(a);
      AttachmentsNoDeletes(es[1..], fileName, program, hs[1..], cs[1..]);
      NoDeletesAppend(a, Attachments(es[1..], fileName, program, hs[1..], cs[1..]));
    }
  }

  /** Calls before the link that delete nothing keep the order. */
  lemma PrefixKeepsLinkBetween(a: seq<Call>, t: seq<Call>, program: nat)
    requires NoDeletes(a) && LinkBetween(t, program)
    ensures LinkBetween(a + t, program)
  {
    var k :| 0 <= k < |t| && t[k] == LinkProgram(program)
      && (forall i :: 0 <= i < |t| && t[i].DeleteShader? ==> k < i)
      && (forall i :: 0 <= i < |t| && t[i].AttachShader? ==> i < k);
    var u := a + t;
    var k' := |a| + k;
    assert u[k'] == LinkProgram(program);
    forall i | 0 <= i < |u| && u[i].DeleteShader?
      ensures k' < i
    {
      if i >= |a| {
        assert u[i] == t[i - |a|];
      }
    }
    forall i | 0 <= i < |u| && u[i].AttachShader?
      ensures i < k'
    {
      if i >= |a| {
        assert u[i] == t[i - |a|];
      }
    }
  }

  /** The link comes first, the deletes last, and nothing after the link
      attaches. */
  lemma LinkAndReleaseOrder(program: nat, pname: int, linked: bool, prior: int, hs: seq<nat>)
    requires pname == GL_COMPILE_STATUS || pname == GL_LINK_STATUS
    ensures LinkBetween(LinkAndRelease(program, pname, linked, prior, hs), program)
  {
    var t := LinkAndRelease(program, pname, linked, prior, hs);
    var report := LinkReport(program, pname, linked, prior);
    var dels := Deletes(hs);
    assert t[0] == LinkProgram(program);
    forall i | 0 <= i < |t|
      ensures !t[i].AttachShader?
    {
      if 0 < i <= |report| {
        assert t[i] == report[i - 1];
      } else if i > |report| {
        assert t[i] == dels[i - 1 - |report|];
      }
    }
  }

  /** The map build attaches every stage object before the link and deletes
      none before it, whatever the compile and link outcomes. */
  lemma LoadProgramOrder(m: map<Stage, string>, rank: seq<Stage>, fileName: string, program: nat,
                         handle: nat -> nat, compiled: nat -> bool, pname: int, linked: bool, prior: int)
    requires pname == GL_COMPILE_STATUS || pname == GL_LINK_STATUS
    ensures LinkBetween(LoadProgram(m, rank, fileName, program, handle, compiled, pname, linked, prior).trace, program)
  {
    var es := Entries(m, rank);
    var hs := Issued(handle, 0, |es|);
    var att := Attachments(es, fileName, program, hs, Issued(compiled, 0, |es|));
    var tail := LinkAndRelease(program, pname, linked, prior, hs);
    var p := [CreateProgram(program)];
    LinkAndReleaseOrder(program, pname, linked, prior, hs);
    AttachmentsNoDeletes(es, fileName, program, hs, Issued(compiled, 0, |es|));
    PrefixKeepsLinkBetween(att, tail, program);
    assert NoDeletes(p);
    PrefixKeepsLinkBetween(p, att + tail, program);
  }

  /** The three-object build attaches before the link and deletes after it. */
  lemma LoadProgramIdsOrder(program: nat, vertex: nat, fragment: nat, geometry: nat,
                            pname: int, linked: bool, prior: int)
    requires pname == GL_COMPILE_STATUS || pname == GL_LINK_STATUS
    ensures LinkBetween(LoadProgramIds(program, vertex, fragment, geometry, pname, linked, prior), program)
  {
    var hs := IdList(vertex, fragment, geometry);
    var att := Attaches(program, hs);
    var tail := LinkAndRelease(program, pname, linked, prior, hs);
    var p := [CreateProgram(program)];
    LinkAndReleaseOrder(program, pname, linked, prior, hs);
    assert NoDeletes(att);
    PrefixKeepsLinkBetween(att, tail, program);
    assert NoDeletes(p);
    PrefixKeepsLinkBetween(p, att + tail, program);
  }

  /** `compile` loads its stages, attaches them, links, and only then
      deletes them. */
  lemma CompileOrder(vertex: StageInput, fragment: StageInput, geometry: Option<StageInput>, program: nat,
                     handle: nat -> nat, compiled: nat -> bool, linked: bool, prior: int)
    ensures LinkBetween(Compile(vertex, fragment, geometry, program, handle, compiled, linked, prior), program)
  {
    var g := if geometry.Some? then handle(2) else 0;
    var lv := LoadShader(vertex.code, Vertex, vertex.fileName, handle(0), compiled(0));
    var lf := LoadShader(fragment.code, Fragment, fragment.fileName, handle(1), compiled(1));
    var lg := if geometry.Some? then LoadShader(geometry.value.code, Geometry, geometry.value.fileName, handle(2), compiled(2)) else [];
    assert NoDeletes(lv) && NoDeletes(lf) && NoDeletes(lg);
    NoDeletesAppend(lv, lf);
    NoDeletesAppend(lv + lf, lg);
    LoadProgramIdsOrder(program, handle(0), handle(1), g, GL_COMPILE_STATUS, linked, prior);
    PrefixKeepsLinkBetween(lv + lf + lg, LoadProgramIds(program, handle(0), handle(1), g, GL_COMPILE_STATUS, linked, prior), program);
  }

  /** The single-file constructor, when the split succeeds, links before it
      releases any stage object. */
  lemma FromFileOrder(path: string, source: string, rank: seq<Stage>, program: nat,
                      handle: nat -> nat, compiled: nat -> bool, linked: bool, prior: int)
    ensures var r := FromFile(path, source, rank, program, handle, compiled, linked, prior);
      r.Ok? ==> LinkBetween(r.value.1, program)
  {
    if ShaderSource.Sections(source).Ok? {
      var m := ShaderSource.StageMap(ShaderSource.Sections(source).value);
      LoadProgramOrder(m, rank, path, program, handle, compiled, GL_COMPILE_STATUS, linked, prior);
    }
  }
}
