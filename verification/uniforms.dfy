/** The uniform setters of a shader: how they spell the names they address
    (`name[i]`, `list.member`, `list[idx].member`), the calls they make, and
    what those calls leave in the bound program's uniform storage. What the
    linked program exposes, its uniform locations and block indices, belongs
    to the driver and is a parameter. */
module Uniforms {
  import opened Base
  import opened Gl
  import Decimal
  import ShaderName

  // ---------------------------------------------------------------------------
  // Uniform names.

  /** `name + "[" + std::to_string(i) + "]"`: element `i` of an array uniform. */
  function ElementName(name: string, i: nat): string
  {
    name + "[" + Decimal.NatToString(i) + "]"
  }

  /** `listName + "." + memberName`: a member of a struct uniform. */
  function MemberName(list: string, member: string): string
  {
    list + "." + member
  }

  /** `listName + "[" + std::to_string(i) + "]." + memberName`: a member of
      element `i` of an array of structs. */
  function ElementMemberName(list: string, member: string, i: nat): string
  {
    list + "[" + Decimal.NatToString(i) + "]." + member
  }

  /** The element-member spelling is the member of the element. */
  lemma ElementMemberNameComposes(list: string, member: string, i: nat)
    ensures ElementMemberName(list, member, i) == MemberName(ElementName(list, i), member)
  {
  }

  /** Reads an element name back: the array name and the index between the
      last `[` and a closing `]` at the end. */
  function ParseElementName(s: string): (r: Option<(string, nat)>)
    ensures r.Some? ==> |r.value.0| + 3 <= |s| && s[..|r.value.0|] == r.value.0
  {
    if |s| == 0 || s[|s| - 1] != ']' then None
    else
      match ShaderName.LastIndexOf(s, |s| - 1, {'['})
      case None => None
      case Some(open) =>
        var digits := s[open + 1..|s| - 1];
        if |digits| == 0 || !Decimal.AllDigits(digits) then None
        else Some((s[..open], Decimal.ParseDecimal(digits)))
  }

  /** Every element name reads back as the array name and index it was spelled from. */
  lemma ParseElementNameRoundTrip(name: string, i: nat)
    ensures ParseElementName(ElementName(name, i)) == Some((name, i))
  {
    var d := Decimal.NatToString(i);
    var s := ElementName(name, i);
    assert s == name + "[" + d + "]";
    assert s[|name|] == '[';
    assert forall j :: |name| < j < |s| - 1 ==> s[j] == d[j - |name| - 1];
    assert s[|name| + 1..|s| - 1] == d;
    assert s[..|name|] == name;
    Decimal.ParseNatToString(i);
  }

  /** Different arrays or indices give different element names. */
  lemma ElementNameInjective(n1: string, i1: nat, n2: string, i2: nat)
    requires ElementName(n1, i1) == ElementName(n2, i2)
    ensures n1 == n2 && i1 == i2
  {
    ParseElementNameRoundTrip(n1, i1);
    ParseElementNameRoundTrip(n2, i2);
  }

  /** Within one array of structs, different indices give different names. */
  lemma ElementMemberNameInjective(list: string, member: string, i: nat, j: nat)
    requires ElementMemberName(list, member, i) == ElementMemberName(list, member, j)
    ensures i == j
  {
    var di, dj := Decimal.NatToString(i), Decimal.NatToString(j);
    var s := ElementMemberName(list, member, i);
    assert |di| == |dj|;
    var a, b := |list| + 1, |list| + 1 + |di|;
    assert s == list + "[" + di + "]." + member;
    assert s[a..b] == di;
    assert s == list + "[" + dj + "]." + member;
    assert s[a..b] == dj;
    Decimal.NatToStringInjective(i, j);
  }

  // ---------------------------------------------------------------------------
  // What the driver does with uploads.

  /** `glGetUniformBlockIndex` answers this for a name that is not a block. */
  const GL_INVALID_INDEX: nat := 0xFFFF_FFFF

  /** What the linked programs expose: the `glGetUniformLocation` and
      `glGetUniformBlockIndex` answers for a program and a name. */
  datatype Interface = Interface(location: (nat, string) -> int, blockIndex: (nat, string) -> nat)

  /** A `GLuint` passed where a `GLint` location is expected: its low 32 bits
      read as a two's-complement number. */
  function AsLocation(index: nat): (r: int)
    ensures -0x8000_0000 <= r < 0x8000_0000
    ensures (r - index) % 0x1_0000_0000 == 0
  {
    var low := index % 0x1_0000_0000;
    if low < 0x8000_0000 then low else low - 0x1_0000_0000
  }

  /** The location an upload lands on when `program` is bound. */
  function Resolve(d: Interface, program: nat, t: UniformTarget): int
  {
    match t
    case NamedLocation(name) => d.location(program, name)
    case BlockIndex(name) => AsLocation(d.blockIndex(program, name))
    case RawLocation(location) => location
  }

  /** The bound program (0 for none) and the uniform values stored, by
      program and location. */
  datatype UniformState = UniformState(current: nat, values: map<(nat, int), UniformValue>)

  /** One call's effect. An upload needs a bound program and a location the
      program has: location -1 is ignored silently, other negative locations
      and an unbound program raise an error, and neither stores anything. */
  function Apply(d: Interface, s: UniformState, c: Call): UniformState
  {
    match c
    case UseProgram(program) => s.(current := program)
    case Upload(t, v) =>
      var location := Resolve(d, s.current, t);
      if s.current != 0 && location >= 0 then s.(values := s.values[(s.current, location) := v]) else s
    case _ => s
  }

  function Run(d: Interface, s: UniformState, calls: seq<Call>): UniformState
    decreases |calls|
  {
    if |calls| == 0 then s else Run(d, Apply(d, s, calls[0]), calls[1..])
  }

  lemma {:induction false} RunAppend(d: Interface, s: UniformState, a: seq<Call>, b: seq<Call>)
    ensures Run(d, s, a + b) == Run(d, Run(d, s, a), b)
    decreases |a|
  {
    if |a| == 0 {
      assert a + b == b;
    } else {
      assert (a + b)[1..] == a[1..] + b;
      RunAppend(d, Apply(d, s, a[0]), a[1..], b);
    }
  }

  /** The state after storing `v` at `location` of `program`, if anything is stored. */
  function Stored(s: UniformState, program: nat, location: int, v: UniformValue): UniformState
  {
    if program != 0 && location >= 0 then UniformState(program, s.values[(program, location) := v])
    else s.(current := program)
  }

  // ---------------------------------------------------------------------------
  // Single setters.

  /** `use()`. */
  function Use(program: nat): seq<Call>
  {
    [UseProgram(program)]
  }

  /** Every single-value setter: bind the program, then upload. */
  function Set(program: nat, t: UniformTarget, v: UniformValue): (r: seq<Call>)
    ensures |r| == 2
  {
    [UseProgram(program), Upload(t, v)]
  }

  /** A setter binds its program and stores the value at the location its
      target resolves to in that program, and nowhere else. */
  lemma SetEffect(d: Interface, s: UniformState, program: nat, t: UniformTarget, v: UniformValue)
    ensures Run(d, s, Set(program, t, v)) == Stored(s, program, Resolve(d, program, t), v)
  {
    var r := Set(program, t, v);
    assert Run(d, s, r) == Run(d, Apply(d, s, r[0]), r[1..]);
    assert r[1..] == [Upload(t, v)];
  }

  /** `setInt(name, v)` and the other setters by name. */
  function SetNamed(program: nat, name: string, v: UniformValue): seq<Call>
  {
    Set(program, NamedLocation(name), v)
  }

  /** `setInt(listName, memberName, v)` and the other setters on a struct member. */
  function SetMember(program: nat, list: string, member: string, v: UniformValue): seq<Call>
  {
    Set(program, NamedLocation(MemberName(list, member)), v)
  }

  /** `setInt(location, v)` and the other setters on a location the caller holds. */
  function SetAt(program: nat, location: int, v: UniformValue): seq<Call>
  {
    Set(program, RawLocation(location), v)
  }

  /** A struct-member setter stores at the location of the uniform named
      `list.member`. */
  lemma SetMemberEffect(d: Interface, s: UniformState, program: nat, list: string, member: string, v: UniformValue)
    ensures Run(d, s, SetMember(program, list, member, v)) == Stored(s, program, d.location(program, list + "." + member), v)
  {
    SetEffect(d, s, program, NamedLocation(MemberName(list, member)), v);
  }

  /** Setting by name and setting at the location `getUniformLocation` gives
      for that name store the same thing: the array setters below, which look
      each element's location up and then set at it, are modelled by name. */
  lemma SetNamedIsSetAt(d: Interface, s: UniformState, program: nat, name: string, v: UniformValue)
    ensures Run(d, s, SetNamed(program, name, v)) == Run(d, s, SetAt(program, d.location(program, name), v))
  {
    SetEffect(d, s, program, NamedLocation(name), v);
    SetEffect(d, s, program, RawLocation(d.location(program, name)), v);
  }

  /** `setInt(listName, memberName, v, idx)` and the other indexed setters as
      written: the name `list[idx].member` goes to `getUniformBlockIndex`, and
      the block index is used as the location. */
  function SetIndexedAsWritten(program: nat, list: string, member: string, idx: nat, v: UniformValue): seq<Call>
  {
    Set(program, BlockIndex(ElementMemberName(list, member, idx)), v)
  }

  /** A name that is not a uniform block has block index `GL_INVALID_INDEX`,
      which as a location is -1: the indexed setter as written then stores
      nothing, whatever location the uniform `list[idx].member` has. */
  lemma SetIndexedAsWrittenIgnored(d: Interface, s: UniformState, program: nat, list: string, member: string,
                                   idx: nat, v: UniformValue)
    requires d.blockIndex(program, ElementMemberName(list, member, idx)) == GL_INVALID_INDEX
    ensures Run(d, s, SetIndexedAsWritten(program, list, member, idx, v)).values == s.values
  {
    SetEffect(d, s, program, BlockIndex(ElementMemberName(list, member, idx)), v);
    assert AsLocation(GL_INVALID_INDEX) == -1;
  }

  /** A program whose only uniform is `lights[0].color`, at location 3, and
      which has no uniform blocks. */
  function LightsInterface(): Interface
  {
    Interface((p: nat, n: string) => if n == "lights[0].color" then 3 else -1, (p: nat, n: string) => GL_INVALID_INDEX)
  }

  /** Setting `lights[0].color` with the indexed setter as written leaves
      location 3 unset; the corrected setter stores the value there. */
  lemma SetIndexedAsWrittenCounterexample(v: UniformValue)
    ensures var d, s := LightsInterface(), UniformState(0, map[]);
      && (1, 3) !in Run(d, s, SetIndexedAsWritten(1, "lights", "color", 0, v)).values
      && Run(d, s, SetIndexed(1, "lights", "color", 0, v)).values == map[(1, 3) := v]
  {
    var d, s := LightsInterface(), UniformState(0, map[]);
    assert Decimal.NatToString(0) == "0";
    assert ElementMemberName("lights", "color", 0) == "lights[0].color";
    SetIndexedAsWrittenIgnored(d, s, 1, "lights", "color", 0, v);
    SetEffect(d, s, 1, NamedLocation("lights[0].color"), v);
  }

  /** The indexed setter as intended: look `list[idx].member` up as a uniform location. */
  function SetIndexed(program: nat, list: string, member: string, idx: nat, v: UniformValue): seq<Call>
  {
    Set(program, NamedLocation(ElementMemberName(list, member, idx)), v)
  }

  // ---------------------------------------------------------------------------
  // Array setters.

  /** The loop body run for each element: a setter at that element's target.
      The inner setter binds the program again. */
  function Uploads(program: nat, ts: seq<UniformTarget>, vs: seq<UniformValue>): (r: seq<Call>)
    requires |ts| == |vs|
    ensures |r| == 2 * |ts|
    decreases |ts|
  {
    if |ts| == 0 then [] else Set(program, ts[0], vs[0]) + Uploads(program, ts[1..], vs[1..])
  }

  /** Each element gets a bind and an upload, in order. */
  lemma {:induction false} UploadsShape(program: nat, ts: seq<UniformTarget>, vs: seq<UniformValue>)
    requires |ts| == |vs|
    ensures var r := Uploads(program, ts, vs);
      forall i :: 0 <= i < |ts| ==> r[2 * i] == UseProgram(program) && r[2 * i + 1] == Upload(ts[i], vs[i])
    decreases |ts|
  {
    if |ts| > 0 {
      UploadsShape(program, ts[1..], vs[1..]);
      var r := Uploads(program, ts, vs);
      var rest := Uploads(program, ts[1..], vs[1..]);
      assert r == Set(program, ts[0], vs[0]) + rest;
      forall i | 1 <= i < |ts|
        ensures r[2 * i] == UseProgram(program) && r[2 * i + 1] == Upload(ts[i], vs[i])
      {
        assert r[2 * i] == rest[2 * (i - 1)];
        assert r[2 * i + 1] == rest[2 * (i - 1) + 1];
      }
    }
  }

  /** The targets `name[0]` … `name[n-1]`. */
  function ElementTargets(name: string, n: nat): (ts: seq<UniformTarget>)
    ensures |ts| == n
    ensures forall i :: 0 <= i < n ==> ts[i] == NamedLocation(ElementName(name, i))
  {
    seq(n, i requires 0 <= i => NamedLocation(ElementName(name, i)))
  }

  /** The targets `list[0].member` … `list[n-1].member`. */
  function ElementMemberTargets(list: string, member: string, n: nat): (ts: seq<UniformTarget>)
    ensures |ts| == n
    ensures forall i :: 0 <= i < n ==> ts[i] == NamedLocation(ElementMemberName(list, member, i))
  {
    seq(n, i requires 0 <= i => NamedLocation(ElementMemberName(list, member, i)))
  }

  /** `n` copies of `v`. */
  function Fill(v: UniformValue, n: nat): (vs: seq<UniformValue>)
    ensures |vs| == n
    ensures forall i :: 0 <= i < n ==> vs[i] == v
  {
    seq(n, i => v)
  }

  /** `setInt_vector(name, vec)` and the other array setters. */
  function SetArray(program: nat, name: string, vs: seq<UniformValue>): seq<Call>
  {
    Use(program) + Uploads(program, ElementTargets(name, |vs|), vs)
  }

  /** `setInt_vector(name, value, size)`: the same value in every element. */
  function SetArrayFill(program: nat, name: string, v: UniformValue, size: nat): seq<Call>
  {
    Use(program) + Uploads(program, ElementTargets(name, size), Fill(v, size))
  }

  /** `setInt_vector(listName, memberName, vec)` and the other member-array setters. */
  function SetMemberArray(program: nat, list: string, member: string, vs: seq<UniformValue>): seq<Call>
  {
    Use(program) + Uploads(program, ElementMemberTargets(list, member, |vs|), vs)
  }

  /** `setInt_vector(listName, memberName, value, size)`. */
  function SetMemberArrayFill(program: nat, list: string, member: string, v: UniformValue, size: nat): seq<Call>
  {
    Use(program) + Uploads(program, ElementMemberTargets(list, member, size), Fill(v, size))
  }

  /** `set4fv_vector(listName, memberName, vec)` and its fill variant: the
      only array setters without the leading `glUseProgram`. */
  function SetMemberArrayUnbound(program: nat, list: string, member: string, vs: seq<UniformValue>): seq<Call>
  {
    Uploads(program, ElementMemberTargets(list, member, |vs|), vs)
  }

  function SetMemberArrayFillUnbound(program: nat, list: string, member: string, v: UniformValue, size: nat): seq<Call>
  {
    Uploads(program, ElementMemberTargets(list, member, size), Fill(v, size))
  }

  /** An array setter binds the program, then for each element in index
      order binds it again (the element's own setter) and uploads one value:
      element `i` is addressed as `name[i]` and carries `vs[i]`. */
  lemma SetArrayShape(program: nat, name: string, vs: seq<UniformValue>)
    ensures var r := SetArray(program, name, vs);
      && |r| == 1 + 2 * |vs|
      && r[0] == UseProgram(program)
      && (forall i :: 0 <= i < |vs| ==> r[2 * i + 1] == UseProgram(program))
      && (forall i :: 0 <= i < |vs| ==> r[2 * i + 2] == Upload(NamedLocation(ElementName(name, i)), vs[i]))
  {
    var ts := ElementTargets(name, |vs|);
    UploadsShape(program, ts, vs);
    var u := Uploads(program, ts, vs);
    assert forall i :: 0 <= i < |vs| ==> SetArray(program, name, vs)[2 * i + 1] == u[2 * i];
    assert forall i :: 0 <= i < |vs| ==> SetArray(program, name, vs)[2 * i + 2] == u[2 * i + 1];
  }

  /** A broadcast setter uploads the same value `size` times, to `name[0]` … `name[size-1]`. */
  lemma SetArrayFillShape(program: nat, name: string, v: UniformValue, size: nat)
    ensures var r := SetArrayFill(program, name, v, size);
      && |r| == 1 + 2 * size
      && r[0] == UseProgram(program)
      && (forall i :: 0 <= i < size ==> r[2 * i + 1] == UseProgram(program))
      && (forall i :: 0 <= i < size ==> r[2 * i + 2] == Upload(NamedLocation(ElementName(name, i)), v))
  {
    assert SetArrayFill(program, name, v, size) == SetArray(program, name, Fill(v, size));
    SetArrayShape(program, name, Fill(v, size));
  }

  /** A member-array setter addresses `list[i].member` for element `i`. */
  lemma SetMemberArrayShape(program: nat, list: string, member: string, vs: seq<UniformValue>)
    ensures var r := SetMemberArray(program, list, member, vs);
      && |r| == 1 + 2 * |vs|
      && r[0] == UseProgram(program)
      && (forall i :: 0 <= i < |vs| ==> r[2 * i + 1] == UseProgram(program))
      && (forall i :: 0 <= i < |vs| ==> r[2 * i + 2] == Upload(NamedLocation(ElementMemberName(list, member, i)), vs[i]))
  {
    var ts := ElementMemberTargets(list, member, |vs|);
    UploadsShape(program, ts, vs);
    var u := Uploads(program, ts, vs);
    assert forall i :: 0 <= i < |vs| ==> SetMemberArray(program, list, member, vs)[2 * i + 1] == u[2 * i];
    assert forall i :: 0 <= i < |vs| ==> SetMemberArray(program, list, member, vs)[2 * i + 2] == u[2 * i + 1];
  }

  // ---------------------------------------------------------------------------
  // What the array setters store.

  /** The locations the targets resolve to in `program`. */
  function Locations(d: Interface, program: nat, ts: seq<UniformTarget>): (ls: seq<int>)
    ensures |ls| == |ts|
    ensures forall i :: 0 <= i < |ts| ==> ls[i] == Resolve(d, program, ts[i])
  {
    seq(|ts|, i requires 0 <= i < |ts| => Resolve(d, program, ts[i]))
  }

  /** The driver gives distinct uniforms distinct locations. */
  predicate DistinctLocations(ls: seq<int>)
  {
    forall i, j :: 0 <= i < j < |ls| && ls[i] >= 0 ==> ls[i] != ls[j]
  }

  /** Key `k` holds the same thing before and after. */
  predicate Kept(before: map<(nat, int), UniformValue>, after: map<(nat, int), UniformValue>, k: (nat, int))
  {
    (k in after <==> k in before) && (k in before ==> after[k] == before[k])
  }

  /** After the element loop, each element with a location holds its value,
      the program is bound, and every other location is as it was. */
  lemma {:induction false} UploadsEffect(d: Interface, s: UniformState, program: nat,
                                         ts: seq<UniformTarget>, vs: seq<UniformValue>)
    requires |ts| == |vs|
    requires DistinctLocations(Locations(d, program, ts))
    ensures var after, ls := Run(d, s, Uploads(program, ts, vs)), Locations(d, program, ts);
      && (|ts| > 0 ==> after.current == program)
      && (forall i :: 0 <= i < |ts| && program != 0 && ls[i] >= 0 ==>
            (program, ls[i]) in after.values && after.values[(program, ls[i])] == vs[i])
      && (forall k: (nat, int) :: (k.0 != program || program == 0 || k.1 !in ls) ==> Kept(s.values, after.values, k))
    decreases |ts|
  {
    if |ts| > 0 {
      var ls := Locations(d, program, ts);
      var s1 := Stored(s, program, ls[0], vs[0]);
      SetEffect(d, s, program, ts[0], vs[0]);
      RunAppend(d, s, Set(program, ts[0], vs[0]), Uploads(program, ts[1..], vs[1..]));
      var rest := Locations(d, program, ts[1..]);
      assert rest == ls[1..];
      UploadsEffect(d, s1, program, ts[1..], vs[1..]);
      UploadsStep(s, s1, Run(d, s1, Uploads(program, ts[1..], vs[1..])), program, ls, vs);
    }
  }

  /** The glue for one step of `UploadsEffect`. */
  lemma UploadsStep(s: UniformState, s1: UniformState, after: UniformState, program: nat,
                    ls: seq<int>, vs: seq<UniformValue>)
    requires |ls| == |vs| > 0
    requires DistinctLocations(ls)
    requires s1 == Stored(s, program, ls[0], vs[0])
    requires |ls| > 1 ==> after.current == program
    requires |ls| == 1 ==> after == s1
    requires forall i :: 0 <= i < |ls| - 1 && program != 0 && ls[1..][i] >= 0 ==>
               (program, ls[1..][i]) in after.values && after.values[(program, ls[1..][i])] == vs[1..][i]
    requires forall k: (nat, int) :: (k.0 != program || program == 0 || k.1 !in ls[1..]) ==> Kept(s1.values, after.values, k)
    ensures after.current == program
    ensures forall i :: 0 <= i < |ls| && program != 0 && ls[i] >= 0 ==>
              (program, ls[i]) in after.values && after.values[(program, ls[i])] == vs[i]
    ensures forall k: (nat, int) :: (k.0 != program || program == 0 || k.1 !in ls) ==> Kept(s.values, after.values, k)
  {
    if program != 0 && ls[0] >= 0 {
      assert ls[0] !in ls[1..] by {
        forall j | 0 <= j < |ls| - 1
          ensures ls[1..][j] != ls[0]
        {
          assert ls[1..][j] == ls[j + 1];
        }
      }
    }
    forall i | 1 <= i < |ls| && program != 0 && ls[i] >= 0
      ensures (program, ls[i]) in after.values && after.values[(program, ls[i])] == vs[i]
    {
      assert ls[1..][i - 1] == ls[i] && vs[1..][i - 1] == vs[i];
    }
    forall k: (nat, int) | k.0 != program || program == 0 || k.1 !in ls
      ensures Kept(s.values, after.values, k)
    {
      if k.0 == program && program != 0 {
        assert k.1 !in ls[1..];
      }
    }
  }

  /** After an array setter whose elements have distinct locations, element
      `i` of the array uniform holds `vs[i]` wherever the program has it, and
      nothing else in any program changed. */
  lemma SetArrayEffect(d: Interface, s: UniformState, program: nat, name: string, vs: seq<UniformValue>)
    requires DistinctLocations(Locations(d, program, ElementTargets(name, |vs|)))
    ensures var after := Run(d, s, SetArray(program, name, vs));
      && after.current == program
      && (forall i :: 0 <= i < |vs| && program != 0 && d.location(program, ElementName(name, i)) >= 0 ==>
            var location := d.location(program, ElementName(name, i));
            (program, location) in after.values && after.values[(program, location)] == vs[i])
      && (forall k: (nat, int) :: (k.0 != program || program == 0 || k.1 !in Locations(d, program, ElementTargets(name, |vs|))) ==>
            Kept(s.values, after.values, k))
  {
    var ts := ElementTargets(name, |vs|);
    var s1 := s.(current := program);
    RunAppend(d, s, Use(program), Uploads(program, ts, vs));
    assert Run(d, s, Use(program)) == s1;
    UploadsEffect(d, s1, program, ts, vs);
  }

  /** The member-array setters without the leading bind store exactly what
      the others do whenever there is at least one element: each element's
      setter binds the program itself. With no elements they leave the bound
      program as it was. */
  lemma UnboundSameEffect(d: Interface, s: UniformState, program: nat, list: string, member: string, vs: seq<UniformValue>)
    ensures |vs| > 0 ==> Run(d, s, SetMemberArrayUnbound(program, list, member, vs)) == Run(d, s, SetMemberArray(program, list, member, vs))
    ensures |vs| == 0 ==> Run(d, s, SetMemberArrayUnbound(program, list, member, vs)) == s
  {
    var ts := ElementMemberTargets(list, member, |vs|);
    var u := Uploads(program, ts, vs);
    RunAppend(d, s, Use(program), u);
    assert Run(d, s, Use(program)) == s.(current := program);
    if |vs| > 0 {
      var rest := Uploads(program, ts[1..], vs[1..]);
      assert u == [UseProgram(program)] + ([Upload(ts[0], vs[0])] + rest);
      RunAppend(d, s, [UseProgram(program)], [Upload(ts[0], vs[0])] + rest);
      RunAppend(d, s.(current := program), [UseProgram(program)], [Upload(ts[0], vs[0])] + rest);
      assert Run(d, s, [UseProgram(program)]) == s.(current := program);
      assert Run(d, s.(current := program), [UseProgram(program)]) == s.(current := program);
    }
  }

  /** The broadcast member-array setter without the leading bind behaves
      the same way: as the bound fill for at least one element, and no
      change for none. */
  lemma UnboundFillSameEffect(d: Interface, s: UniformState, program: nat, list: string, member: string,
                              v: UniformValue, size: nat)
    ensures size > 0 ==>
      Run(d, s, SetMemberArrayFillUnbound(program, list, member, v, size))
        == Run(d, s, SetMemberArrayFill(program, list, member, v, size))
    ensures size == 0 ==> Run(d, s, SetMemberArrayFillUnbound(program, list, member, v, size)) == s
  {
    UnboundSameEffect(d, s, program, list, member, Fill(v, size));
    assert SetMemberArrayFillUnbound(program, list, member, v, size) == SetMemberArrayUnbound(program, list, member, Fill(v, size));
    assert SetMemberArrayFill(program, list, member, v, size) == SetMemberArray(program, list, member, Fill(v, size));
  }

  /** The corrected indexed setter stores the value where the member-array
      setter stores element `idx`. */
  lemma SetIndexedMatchesArray(d: Interface, s: UniformState, program: nat, list: string, member: string,
                               vs: seq<UniformValue>, idx: nat)
    requires idx < |vs|
    requires DistinctLocations(Locations(d, program, ElementMemberTargets(list, member, |vs|)))
    requires program != 0 && d.location(program, ElementMemberName(list, member, idx)) >= 0
    ensures var location := d.location(program, ElementMemberName(list, member, idx));
      var single := Run(d, s, SetIndexed(program, list, member, idx, vs[idx])).values;
      var whole := Run(d, s, SetMemberArray(program, list, member, vs)).values;
      (program, location) in single && (program, location) in whole && single[(program, location)] == whole[(program, location)]
  {
    var ts := ElementMemberTargets(list, member, |vs|);
    var s1 := s.(current := program);
    RunAppend(d, s, Use(program), Uploads(program, ts, vs));
    assert Run(d, s, Use(program)) == s1;
    UploadsEffect(d, s1, program, ts, vs);
    SetEffect(d, s, program, NamedLocation(ElementMemberName(list, member, idx)), vs[idx]);
  }
}
