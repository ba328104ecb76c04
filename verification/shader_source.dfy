/** Splitting one shader source buffer into per-stage sources at `#type <stage>`
    directives, as `OpenGLShader::loadShader(const char*)` does once the file
    has been read. Positions are absolute indices into the buffer, and each
    `std::string` search is a function below that returns `None` for `npos`. */
module ShaderSource {
  import opened Base
  import opened Gl

  const TypeToken: string := "#type"

  predicate IsLineEnd(c: char)
  {
    c == '\r' || c == '\n'
  }

  /** The stage a directive names; "pixel" is another name for "fragment". */
  function StageFromString(name: string): Option<Stage>
  {
    if name == "vertex" then Some(Vertex)
    else if name == "fragment" || name == "pixel" then Some(Fragment)
    else if name == "geometry" then Some(Geometry)
    else None
  }

  /** `ShaderTypeFromString`: the stage's `GLenum`, or 0 once the assertion
      about an unknown name has fired. A nonzero result identifies the stage. */
  function ShaderTypeFromString(name: string): (r: nat)
    ensures r == 0 <==> StageFromString(name).None?
    ensures forall st :: r == StageEnum(st) <==> StageFromString(name) == Some(st)
  {
    match StageFromString(name)
    case None => 0
    case Some(st) => StageEnum(st)
  }

  /** The name the model writes for each stage. */
  function StageName(st: Stage): string
  {
    match st
    case Vertex => "vertex"
    case Fragment => "fragment"
    case Geometry => "geometry"
  }

  // ---------------------------------------------------------------------------
  // The three string searches the splitter uses.

  /** The directive token "#type" starts at `i`. */
  predicate TokenAt(s: string, i: nat)
  {
    && i + |TypeToken| <= |s|
    && s[i] == '#' && s[i + 1] == 't' && s[i + 2] == 'y' && s[i + 3] == 'p' && s[i + 4] == 'e'
  }

  /** The character test is the same as comparing with the token. */
  lemma TokenAtIsSlice(s: string, i: nat)
    requires i + |TypeToken| <= |s|
    ensures TokenAt(s, i) <==> s[i..i + |TypeToken|] == TypeToken
  {
    if TokenAt(s, i) {
      assert s[i..i + |TypeToken|] == TypeToken;
    }
  }

  /** `s.find("#type", from)`. */
  function FindToken(s: string, from: nat): (r: Option<nat>)
    ensures r.Some? ==> from <= r.value && TokenAt(s, r.value)
    ensures r.Some? ==> forall j :: from <= j < r.value ==> !TokenAt(s, j)
    ensures r.None? ==> forall j :: from <= j ==> !TokenAt(s, j)
    decreases |s| - from
  {
    if from + |TypeToken| > |s| then None
    else if TokenAt(s, from) then Some(from)
    else FindToken(s, from + 1)
  }

  /** `s.find_first_of("\r\n", from)`. */
  function FindLineEnd(s: string, from: nat): (r: Option<nat>)
    ensures r.Some? ==> from <= r.value < |s| && IsLineEnd(s[r.value])
    ensures r.Some? ==> forall j :: from <= j < r.value ==> !IsLineEnd(s[j])
    ensures r.None? ==> forall j :: from <= j < |s| ==> !IsLineEnd(s[j])
    decreases |s| - from
  {
    if from >= |s| then None
    else if IsLineEnd(s[from]) then Some(from)
    else FindLineEnd(s, from + 1)
  }

  /** `s.find_first_not_of("\r\n", from)`. */
  function FindNonLineEnd(s: string, from: nat): (r: Option<nat>)
    ensures r.Some? ==> from <= r.value < |s| && !IsLineEnd(s[r.value])
    ensures r.Some? ==> forall j :: from <= j < r.value ==> IsLineEnd(s[j])
    ensures r.None? ==> forall j :: from <= j < |s| ==> IsLineEnd(s[j])
    decreases |s| - from
  {
    if from >= |s| then None
    else if !IsLineEnd(s[from]) then Some(from)
    else FindNonLineEnd(s, from + 1)
  }

  lemma TokenChars(s: string, i: nat)
    requires TokenAt(s, i)
    ensures forall k :: i <= k < i + |TypeToken| ==> !IsLineEnd(s[k])
  {
  }

  // ---------------------------------------------------------------------------
  // The splitter as a function of the buffer.

  datatype Section = Section(stage: Stage, body: string)

  datatype SplitError =
    | MissingLineEnd(at: nat)      // the "Syntax error" assertion: no line end after a directive
    | UnknownStage(name: string)   // the "Invalid shader type specified!" assertion
    | BodyOutOfRange(at: nat)      // `substr(npos, ...)` throws when only line ends follow a directive

  /** `codeString.substr(begin, eol - begin)` with `begin` one past the token.
      When the line end follows the token directly, the unsigned difference
      wraps and the substring runs to the end of the buffer. */
  function StageNameAt(s: string, pos: nat, eol: nat): (name: string)
    requires TokenAt(s, pos)
    requires pos + |TypeToken| <= eol < |s|
    ensures eol > pos + |TypeToken| ==> name == s[pos + |TypeToken| + 1..eol]
    ensures eol == pos + |TypeToken| ==> name == s[eol + 1..]
  {
    var begin := pos + |TypeToken| + 1;
    if eol < begin then s[begin..] else s[begin..eol]
  }

  /** `codeString.substr(start, next - start)`: the text from `start` up to the
      next directive, or to the end of the buffer when there is none. */
  function BodyAt(s: string, start: nat, next: Option<nat>): string
    requires start <= |s|
    requires next.Some? ==> start <= next.value <= |s|
  {
    if next.Some? then s[start..next.value] else s[start..]
  }

  /** One pass of the splitting loop at the directive at `p`: the section it
      opens, and where the next directive starts. */
  function SectionAt(s: string, p: nat): (r: Result<(Section, Option<nat>), SplitError>)
    requires TokenAt(s, p)
    ensures r.Ok? && r.value.1.Some? ==> p < r.value.1.value && TokenAt(s, r.value.1.value)
  {
    match FindLineEnd(s, p)
    case None => Err(MissingLineEnd(p))
    case Some(eol) =>
      TokenChars(s, p);
      var name := StageNameAt(s, p, eol);
      match StageFromString(name)
      case None => Err(UnknownStage(name))
      case Some(stage) =>
        match FindNonLineEnd(s, eol)
        case None => Err(BodyOutOfRange(p))
        case Some(start) =>
          var next := FindToken(s, start);
          Ok((Section(stage, BodyAt(s, start, next)), next))
  }

  function Prepend(done: seq<Section>, r: Result<seq<Section>, SplitError>): Result<seq<Section>, SplitError>
  {
    match r
    case Ok(rest) => Ok(done + rest)
    case Err(e) => Err(e)
  }

  /** The sections found from the directive at `pos` onwards, in buffer order. */
  function SectionsFrom(s: string, pos: Option<nat>): Result<seq<Section>, SplitError>
    requires pos.Some? ==> TokenAt(s, pos.value)
    decreases if pos.Some? then |s| - pos.value + 1 else 0
  {
    if pos.None? then Ok([])
    else
      match SectionAt(s, pos.value)
      case Err(e) => Err(e)
      case Ok((sec, next)) => Prepend([sec], SectionsFrom(s, next))
  }

  /** Every section of a buffer, starting at its first directive. */
  function Sections(s: string): Result<seq<Section>, SplitError>
  {
    SectionsFrom(s, FindToken(s, 0))
  }

  /** The stage map the sections build when later entries overwrite earlier ones. */
  function StageMap(secs: seq<Section>): map<Stage, string>
    decreases |secs|
  {
    if |secs| == 0 then map[]
    else StageMap(secs[..|secs| - 1])[secs[|secs| - 1].stage := secs[|secs| - 1].body]
  }

  lemma PrependAppend(done: seq<Section>, sec: Section, r: Result<seq<Section>, SplitError>)
    ensures Prepend(done, Prepend([sec], r)) == Prepend(done + [sec], r)
  {
    if r.Ok? {
      assert done + ([sec] + r.value) == (done + [sec]) + r.value;
    }
  }

  /** The splitting loop of `loadShader(const char*)`: find a directive, read
      its stage name up to the line end, skip the line ends, and store the text
      up to the next directive (or the end) under that stage. */
  method SplitSource(source: string) returns (r: Result<map<Stage, string>, SplitError>)
    ensures Sections(source).Err? ==> r == Err(Sections(source).error)
    ensures Sections(source).Ok? ==> r == Ok(StageMap(Sections(source).value))
  {
    var shaderMap: map<Stage, string> := map[];
    ghost var done: seq<Section> := [];
    var pos := FindToken(source, 0);
    if SectionsFrom(source, pos).Ok? {
      assert [] + SectionsFrom(source, pos).value == SectionsFrom(source, pos).value;
    }
    while pos.Some?
      invariant pos.Some? ==> TokenAt(source, pos.value)
      invariant shaderMap == StageMap(done)
      invariant Sections(source) == Prepend(done, SectionsFrom(source, pos))
      decreases if pos.Some? then |source| - pos.value + 1 else 0
    {
      var p := pos.value;
      var step := SectionAt(source, p);
      if step.Err? {
        SectionsFromErr(source, p);
        return Err(step.error);
      }
      var section := step.value.0;
      pos := step.value.1;
      SectionsFromStep(source, p);
      PrependAppend(done, section, SectionsFrom(source, pos));
      assert (done + [section])[..|done|] == done;
      shaderMap := shaderMap[section.stage := section.body];
      done := done + [section];
    }
    assert done + [] == done;
    r := Ok(shaderMap);
  }

  // ---------------------------------------------------------------------------
  // What the stage map keeps.

  /** No later section names the stage of section `i`. */
  predicate LastOf(secs: seq<Section>, i: nat)
    requires i < |secs|
  {
    forall j :: i < j < |secs| ==> secs[j].stage != secs[i].stage
  }

  /** A stage is in the map exactly when some section names it, and it maps to
      the body of the last such section. */
  lemma {:induction false} StageMapLastWins(secs: seq<Section>, st: Stage)
    ensures st in StageMap(secs) <==> exists i :: 0 <= i < |secs| && secs[i].stage == st
    ensures forall i :: 0 <= i < |secs| && secs[i].stage == st && LastOf(secs, i) ==>
      StageMap(secs)[st] == secs[i].body
    decreases |secs|
  {
    if |secs| > 0 {
      var init := secs[..|secs| - 1];
      StageMapLastWins(init, st);
      forall i | 0 <= i < |init| && init[i].stage == st
        ensures secs[i].stage == st
      {
      }
    }
  }

  /** A buffer yields at most one source per stage, so at most three. */
  lemma StageMapAtMostThree(secs: seq<Section>)
    ensures |StageMap(secs)| <= 3
  {
    var m := StageMap(secs);
    var all: set<Stage> := {Vertex, Fragment, Geometry};
    assert m.Keys <= all by {
      forall st | st in m.Keys ensures st in all {
        match st
        case Vertex =>
        case Fragment =>
        case Geometry =>
      }
    }
    SubsetCardinality(m.Keys, all);
    assert |all| == 3;
  }

  lemma {:induction false} SubsetCardinality<T>(a: set<T>, b: set<T>)
    requires a <= b
    ensures |a| <= |b|
    decreases |b|
  {
    if b != {} {
      var x :| x in b;
      SubsetCardinality(a - {x}, b - {x});
    }
  }

  // ---------------------------------------------------------------------------
  // Writing sections out, and reading them back.

  /** No directive token starts anywhere in `t`. */
  predicate NoToken(t: string)
  {
    forall j :: 0 <= j < |t| ==> !TokenAt(t, j)
  }

  /** The line `#type <name>` and its line end. */
  function DirectiveOf(name: string): string
  {
    TypeToken + " " + name + "\n"
  }

  function Directive(st: Stage): string
  {
    DirectiveOf(StageName(st))
  }

  /** A buffer holding the sections in order, each under a directive line
      with the matching entry of `names`. */
  function RenderNamed(secs: seq<Section>, names: seq<string>): string
    requires |names| == |secs|
    decreases |secs|
  {
    if |secs| == 0 then "" else DirectiveOf(names[0]) + secs[0].body + RenderNamed(secs[1..], names[1..])
  }

  /** The names the writer gives the sections' stages. */
  function StageNames(secs: seq<Section>): (names: seq<string>)
    ensures |names| == |secs|
    ensures forall i :: 0 <= i < |secs| ==> names[i] == StageName(secs[i].stage)
    decreases |secs|
  {
    if |secs| == 0 then [] else [StageName(secs[0].stage)] + StageNames(secs[1..])
  }

  /** A buffer holding the sections in order, each under its own directive line. */
  function Render(secs: seq<Section>): string
  {
    RenderNamed(secs, StageNames(secs))
  }

  /** Sections a buffer can hold so that splitting finds them again: no body
      contains the token, none starts with a line end, and the last is not empty. */
  ghost predicate Renderable(secs: seq<Section>)
  {
    && (forall i :: 0 <= i < |secs| ==> NoToken(secs[i].body))
    && (forall i :: 0 <= i < |secs| && |secs[i].body| > 0 ==> !IsLineEnd(secs[i].body[0]))
    && (|secs| > 0 ==> |secs[|secs| - 1].body| > 0)
  }

  /** A token cannot straddle a position holding '#': the token has '#' only
      as its first character. */
  lemma NoTokenAcrossHash(s: string, j: nat, q: nat)
    requires j < q < j + |TypeToken| && q < |s| && s[q] == '#'
    ensures !TokenAt(s, j)
  {
  }

  lemma StageNameChars(st: Stage)
    ensures |StageName(st)| > 0
    ensures forall k :: 0 <= k < |StageName(st)| ==> !IsLineEnd(StageName(st)[k])
    ensures StageFromString(StageName(st)) == Some(st)
  {
  }

  lemma FindTokenIs(s: string, from: nat, k: nat)
    requires from <= k && TokenAt(s, k)
    requires forall j :: from <= j < k ==> !TokenAt(s, j)
    ensures FindToken(s, from) == Some(k)
  {
  }

  lemma FindTokenNone(s: string, from: nat)
    requires forall j :: from <= j < |s| ==> !TokenAt(s, j)
    ensures FindToken(s, from) == None
  {
  }

  /** A directive line naming `name` starts at `p`: the token, a space, the
      name and a line feed. */
  predicate DirectiveLineAt(s: string, p: nat, name: string)
  {
    && p + |TypeToken| + 1 + |name| < |s|
    && TokenAt(s, p)
    && s[p + |TypeToken|] == ' '
    && s[p + |TypeToken| + 1..p + |TypeToken| + 1 + |name|] == name
    && s[p + |TypeToken| + 1 + |name|] == '\n'
  }

  /** Where a written directive line sits in the buffer built around it. */
  lemma DirectiveOfAt(pre: string, name: string, rest: string)
    ensures |DirectiveOf(name)| == |TypeToken| + 1 + |name| + 1
    ensures var s := pre + DirectiveOf(name) + rest;
      && DirectiveLineAt(s, |pre|, name)
      && s[..|pre|] == pre
      && s[|pre| + |DirectiveOf(name)|..] == rest
  {
    var d := DirectiveOf(name);
    DirectiveOfLine(name);
    Placed(pre, d, rest);
    ShiftLine(pre + d + rest, |pre|, d, name);
  }

  /** A written directive line is one. */
  lemma DirectiveOfLine(name: string)
    ensures |DirectiveOf(name)| == |TypeToken| + 1 + |name| + 1
    ensures DirectiveLineAt(DirectiveOf(name) , 0, name)
  {
    var d := DirectiveOf(name);
    assert d == TypeToken + " " + name + "\n";
    assert d[|TypeToken| + 1..|TypeToken| + 1 + |name|] == name;
  }

  lemma Placed(pre: string, d: string, rest: string)
    ensures var s := pre + d + rest;
      && |s| == |pre| + |d| + |rest|
      && s[|pre|..|pre| + |d|] == d
      && s[..|pre|] == pre
      && s[|pre| + |d|..] == rest
  {
    var s := pre + d + rest;
    assert s[|pre|..|pre| + |d|] == d;
    assert s[..|pre|] == pre;
    assert s[|pre| + |d|..] == rest;
  }

  /** A directive line copied into a larger buffer is still one. */
  lemma ShiftLine(s: string, p: nat, d: string, name: string)
    requires DirectiveLineAt(d, 0, name) && |d| == |TypeToken| + 1 + |name| + 1
    requires p + |d| <= |s| && s[p..p + |d|] == d
    ensures DirectiveLineAt(s, p, name)
  {
    var w := s[p..p + |d|];
    assert s[p] == w[0] && s[p + 1] == w[1] && s[p + 2] == w[2] && s[p + 3] == w[3] && s[p + 4] == w[4];
    assert s[p + |TypeToken|] == w[|TypeToken|];
    SliceOfSlice(s, p, |d|, |TypeToken| + 1, |TypeToken| + 1 + |name|);
    assert s[p + |d| - 1] == w[|d| - 1];
  }

  lemma SliceOfSlice(s: string, p: nat, n: nat, a: nat, b: nat)
    requires p + n <= |s| && a <= b <= n
    ensures s[p..p + n][a..b] == s[p + a..p + b]
  {
    var w := s[p..p + n];
    assert forall k :: 0 <= k < b - a ==> w[a..b][k] == w[a + k] == s[p + a + k];
  }

  /** What the searches find at a directive line: the line end right after
      the name, and the name itself. */
  lemma DirectiveLineSearch(s: string, p: nat, name: string)
    requires DirectiveLineAt(s, p, name)
    requires |name| > 0 && forall k :: 0 <= k < |name| ==> !IsLineEnd(name[k])
    ensures FindLineEnd(s, p) == Some(p + |TypeToken| + 1 + |name|)
    ensures StageNameAt(s, p, p + |TypeToken| + 1 + |name|) == name
  {
    var eol := p + |TypeToken| + 1 + |name|;
    TokenChars(s, p);
    forall j | p <= j < eol
      ensures !IsLineEnd(s[j])
    {
      if j > p + |TypeToken| {
        assert s[j] == s[p + |TypeToken| + 1..eol][j - p - |TypeToken| - 1];
      }
    }
    LineEndAt(s, p, eol);
  }

  lemma LineEndAt(s: string, p: nat, eol: nat)
    requires p <= eol < |s| && IsLineEnd(s[eol])
    requires forall j :: p <= j < eol ==> !IsLineEnd(s[j])
    ensures FindLineEnd(s, p) == Some(eol)
  {
  }

  /** The first directive of a buffer that starts with token-free text and
      then a token is that token. */
  lemma FirstTokenAfter(pre: string, s: string)
    requires NoToken(pre)
    requires |pre| <= |s| && s[..|pre|] == pre
    requires TokenAt(s, |pre|)
    ensures FindToken(s, 0) == Some(|pre|)
  {
    assert forall x :: 0 <= x < |pre| ==> s[x] == pre[x];
    forall j: nat | j < |pre|
      ensures !TokenAt(s, j)
    {
      if j + |TypeToken| <= |pre| {
        assert !TokenAt(pre, j);
      } else {
        NoTokenAcrossHash(s, j, |pre|);
      }
    }
  }

  /** Where the body after a directive ends: at `e`, which is either the end
      of the buffer or the start of the next directive. */
  lemma BodyEnd(s: string, start: nat, e: nat)
    requires start <= e <= |s|
    requires NoToken(s[start..e])
    requires e < |s| ==> TokenAt(s, e)
    ensures FindToken(s, start) == if e == |s| then None else Some(e)
    ensures BodyAt(s, start, FindToken(s, start)) == s[start..e]
  {
    forall j: nat | start <= j < e
      ensures !TokenAt(s, j)
    {
      if j + |TypeToken| <= e {
        assert TokenAt(s, j) ==> TokenAt(s[start..e], j - start);
      } else if e < |s| {
        NoTokenAcrossHash(s, j, e);
      }
    }
    if e < |s| {
      FindTokenIs(s, start, e);
    } else {
      FindTokenNone(s, start);
    }
  }

  lemma NonLineEndNext(s: string, i: nat)
    requires i + 1 < |s| && IsLineEnd(s[i]) && !IsLineEnd(s[i + 1])
    ensures FindNonLineEnd(s, i) == Some(i + 1)
  {
  }

  /** One pass of the loop in terms of the searches it makes. */
  lemma SectionAtIs(s: string, p: nat, eol: nat, st: Stage, start: nat)
    requires TokenAt(s, p)
    requires FindLineEnd(s, p) == Some(eol)
    requires StageFromString(StageNameAt(s, p, eol)) == Some(st)
    requires FindNonLineEnd(s, eol) == Some(start)
    ensures SectionAt(s, p) == Ok((Section(st, BodyAt(s, start, FindToken(s, start))), FindToken(s, start)))
  {
  }

  /** A directive line naming `st`, then the body `s[q..e]`, then either the
      end of the buffer or another directive: one pass of the loop reads
      exactly that body. */
  lemma SectionAtLine(s: string, p: nat, name: string, st: Stage, e: nat)
    requires DirectiveLineAt(s, p, name)
    requires |name| > 0 && forall k :: 0 <= k < |name| ==> !IsLineEnd(name[k])
    requires StageFromString(name) == Some(st)
    requires p + |TypeToken| + 2 + |name| <= e <= |s|
    requires NoToken(s[p + |TypeToken| + 2 + |name|..e])
    requires e < |s| ==> TokenAt(s, e)
    requires e == |s| ==> p + |TypeToken| + 2 + |name| < e
    requires p + |TypeToken| + 2 + |name| < e ==> !IsLineEnd(s[p + |TypeToken| + 2 + |name|])
    ensures SectionAt(s, p)
         == Ok((Section(st, s[p + |TypeToken| + 2 + |name|..e]), if e == |s| then None else Some(e)))
  {
    var eol := p + |TypeToken| + 1 + |name|;
    var q := eol + 1;
    DirectiveLineSearch(s, p, name);
    assert q < |s| && !IsLineEnd(s[q]);
    NonLineEndNext(s, eol);
    BodyEnd(s, q, e);
    SectionAtIs(s, p, eol, st, q);
  }

  lemma SectionsFromErr(s: string, p: nat)
    requires TokenAt(s, p) && SectionAt(s, p).Err?
    ensures SectionsFrom(s, Some(p)) == Err(SectionAt(s, p).error)
  {
  }

  lemma SectionsFromStep(s: string, p: nat)
    requires TokenAt(s, p) && SectionAt(s, p).Ok?
    ensures SectionsFrom(s, Some(p))
         == Prepend([SectionAt(s, p).value.0], SectionsFrom(s, SectionAt(s, p).value.1))
  {
  }

  lemma RenderableTail(secs: seq<Section>)
    requires |secs| > 0 && Renderable(secs)
    ensures Renderable(secs[1..])
  {
    var rest := secs[1..];
    forall i | 0 <= i < |rest|
      ensures NoToken(rest[i].body)
      ensures |rest[i].body| > 0 ==> !IsLineEnd(rest[i].body[0])
    {
      assert rest[i] == secs[i + 1];
    }
  }

  /** Cutting a buffer whose tail is `d + b + u` into those three pieces. */
  lemma SuffixSplit(s: string, p: nat, d: string, b: string, u: string)
    requires p <= |s| && s[p..] == d + b + u
    ensures p + |d| + |b| <= |s|
    ensures s[p..p + |d|] == d
    ensures s[p + |d|..p + |d| + |b|] == b
    ensures s[p + |d| + |b|..] == u
  {
    assert s[p..p + |d|] == s[p..][..|d|];
    assert s[p + |d|..p + |d| + |b|] == s[p..][|d|..|d| + |b|];
    assert s[p + |d| + |b|..] == s[p..][|d| + |b|..];
  }

  /** A token at the start of a buffer's tail is a token of the buffer. */
  lemma SuffixToken(s: string, e: nat, t: string)
    requires e <= |s| && s[e..] == t && TokenAt(t, 0)
    ensures TokenAt(s, e)
  {
    assert s[e] == t[0] && s[e + 1] == t[1] && s[e + 2] == t[2] && s[e + 3] == t[3] && s[e + 4] == t[4];
  }

  /** The first section in the tail of a buffer: its directive line, its
      body, and the rest after it. */
  lemma SuffixPieces(s: string, p: nat, secs: seq<Section>, names: seq<string>) returns (e: nat)
    requires |secs| > 0 && |names| == |secs|
    requires p <= |s| && s[p..] == RenderNamed(secs, names)
    ensures e == p + |TypeToken| + 2 + |names[0]| + |secs[0].body|
    ensures DirectiveLineAt(s, p, names[0])
    ensures e <= |s| && s[p + |TypeToken| + 2 + |names[0]|..e] == secs[0].body
    ensures s[e..] == RenderNamed(secs[1..], names[1..])
  {
    e := p + |TypeToken| + 2 + |names[0]| + |secs[0].body|;
    var d := DirectiveOf(names[0]);
    DirectiveOfLine(names[0]);
    SuffixSplit(s, p, d, secs[0].body, RenderNamed(secs[1..], names[1..]));
    ShiftLine(s, p, d, names[0]);
  }

  /** A name a directive line can carry for stage `st`. */
  predicate NameFor(name: string, st: Stage)
  {
    && |name| > 0
    && (forall k :: 0 <= k < |name| ==> !IsLineEnd(name[k]))
    && StageFromString(name) == Some(st)
  }

  /** The sections sit in `s` from `p` to its end, each as a directive line
      naming it (with the matching entry of `names`) followed by its body. */
  ghost predicate Laid(s: string, p: nat, secs: seq<Section>, names: seq<string>)
    decreases |secs|
  {
    && |names| == |secs|
    && if |secs| == 0 then p == |s|
       else
         var q := p + |TypeToken| + 2 + |names[0]|;
         var e := q + |secs[0].body|;
         && DirectiveLineAt(s, p, names[0])
         && e <= |s|
         && s[q..e] == secs[0].body
         && Laid(s, e, secs[1..], names[1..])
  }

  /** Rendered sections in the tail of a buffer are laid out there. */
  lemma {:induction false} SuffixLaid(s: string, p: nat, secs: seq<Section>, names: seq<string>)
    requires |names| == |secs|
    requires p <= |s| && s[p..] == RenderNamed(secs, names)
    ensures Laid(s, p, secs, names)
    decreases |secs|
  {
    if |secs| == 0 {
      assert s[p..] == [];
    } else {
      var e := SuffixPieces(s, p, secs, names);
      SuffixLaid(s, e, secs[1..], names[1..]);
      LaidCons(s, p, secs, names, e);
    }
  }

  /** A directive line and a body in front of laid-out sections extend them. */
  lemma LaidCons(s: string, p: nat, secs: seq<Section>, names: seq<string>, e: nat)
    requires |secs| > 0 && |names| == |secs|
    requires e == p + |TypeToken| + 2 + |names[0]| + |secs[0].body|
    requires DirectiveLineAt(s, p, names[0])
    requires e <= |s| && s[p + |TypeToken| + 2 + |names[0]|..e] == secs[0].body
    requires Laid(s, e, secs[1..], names[1..])
    ensures Laid(s, p, secs, names)
  {
  }

  /** Every name in `names` is one a directive line can carry for the stage
      of the section at the same place. */
  predicate NamedBy(secs: seq<Section>, names: seq<string>)
    requires |names| == |secs|
    decreases |secs|
  {
    |secs| == 0 || (NameFor(names[0], secs[0].stage) && NamedBy(secs[1..], names[1..]))
  }

  /** The writer's own names are names the splitter recognises. */
  lemma {:induction false} StageNamesNamed(secs: seq<Section>)
    ensures NamedBy(secs, StageNames(secs))
    decreases |secs|
  {
    if |secs| > 0 {
      StageNameChars(secs[0].stage);
      StageNamesNamed(secs[1..]);
      assert StageNames(secs)[1..] == StageNames(secs[1..]);
    }
  }

  /** Sections laid out in a buffer, under names for their stages, are read
      back from the directive that opens them. */
  lemma {:induction false} SectionsFromLaid(s: string, p: nat, secs: seq<Section>, names: seq<string>)
    requires |secs| > 0 && |names| == |secs|
    requires Renderable(secs) && Laid(s, p, secs, names) && NamedBy(secs, names)
    ensures TokenAt(s, p)
    ensures SectionsFrom(s, Some(p)) == Ok(secs)
    decreases |secs|
  {
    var e := ReadLaid(s, p, secs, names);
    SectionsFromStep(s, p);
    if |secs| > 1 {
      RenderableTail(secs);
      SectionsFromLaid(s, e, secs[1..], names[1..]);
    }
    assert [secs[0]] + secs[1..] == secs;
  }

  /** One pass of the loop over laid-out sections reads the first of them. */
  lemma ReadLaid(s: string, p: nat, secs: seq<Section>, names: seq<string>) returns (e: nat)
    requires |secs| > 0 && Renderable(secs) && Laid(s, p, secs, names)
    requires NameFor(names[0], secs[0].stage)
    ensures e == p + |TypeToken| + 2 + |names[0]| + |secs[0].body|
    ensures TokenAt(s, p)
    ensures Laid(s, e, secs[1..], names[1..])
    ensures SectionAt(s, p) == Ok((secs[0], if |secs| == 1 then None else Some(e)))
  {
    e := LaidHead(s, p, secs, names);
    SectionAtLine(s, p, names[0], secs[0].stage, e);
  }

  /** The first of the laid-out sections, in the terms one pass of the loop
      needs, and what follows it. */
  lemma LaidHead(s: string, p: nat, secs: seq<Section>, names: seq<string>) returns (e: nat)
    requires |secs| > 0 && Renderable(secs) && Laid(s, p, secs, names)
    ensures e == p + |TypeToken| + 2 + |names[0]| + |secs[0].body|
    ensures DirectiveLineAt(s, p, names[0])
    ensures p + |TypeToken| + 2 + |names[0]| <= e <= |s|
    ensures s[p + |TypeToken| + 2 + |names[0]|..e] == secs[0].body
    ensures NoToken(s[p + |TypeToken| + 2 + |names[0]|..e])
    ensures e < |s| ==> TokenAt(s, e)
    ensures e == |s| ==> p + |TypeToken| + 2 + |names[0]| < e
    ensures p + |TypeToken| + 2 + |names[0]| < e ==> !IsLineEnd(s[p + |TypeToken| + 2 + |names[0]|])
    ensures Laid(s, e, secs[1..], names[1..])
    ensures |secs| == 1 <==> e == |s|
  {
    e := p + |TypeToken| + 2 + |names[0]| + |secs[0].body|;
    RenderableHead(secs);
    assert secs[0].body == s[p + |TypeToken| + 2 + |names[0]|..e];
  }

  /** What `Renderable` says about the first section. */
  lemma RenderableHead(secs: seq<Section>)
    requires |secs| > 0 && Renderable(secs)
    ensures NoToken(secs[0].body)
    ensures |secs[0].body| > 0 ==> !IsLineEnd(secs[0].body[0])
    ensures |secs| == 1 ==> |secs[0].body| > 0
  {
  }

  /** Splitting a rendered buffer gives back the sections it was rendered from;
      text before the first directive is discarded when it holds no token. */
  lemma SplitRender(pre: string, secs: seq<Section>)
    requires NoToken(pre)
    requires Renderable(secs)
    ensures Sections(pre + Render(secs)) == Ok(secs)
  {
    var s := pre + Render(secs);
    if |secs| == 0 {
      assert s == pre;
      FindTokenNone(s, 0);
    } else {
      assert s[|pre|..] == Render(secs);
      SuffixLaid(s, |pre|, secs, StageNames(secs));
      StageNamesNamed(secs);
      SectionsFromLaid(s, |pre|, secs, StageNames(secs));
      assert s[..|pre|] == pre;
      FirstTokenAfter(pre, s);
    }
  }

  /** The text a body search cuts out holds no token, and starts with no line
      end when the search began at a character that is not one. */
  lemma BodyShape(s: string, start: nat)
    requires start < |s| && !IsLineEnd(s[start])
    ensures NoToken(BodyAt(s, start, FindToken(s, start)))
    ensures var body := BodyAt(s, start, FindToken(s, start));
      |body| > 0 ==> !IsLineEnd(body[0])
    ensures FindToken(s, start).None? ==> |BodyAt(s, start, FindToken(s, start))| > 0
  {
    var next := FindToken(s, start);
    var e := if next.Some? then next.value else |s|;
    var body := s[start..e];
    assert body == BodyAt(s, start, next);
    forall j | 0 <= j < |body|
      ensures !TokenAt(body, j)
    {
      if TokenAt(body, j) {
        SliceToken(s, start, e, j);
      }
    }
  }

  /** A token inside a slice is a token of the whole buffer. */
  lemma SliceToken(s: string, a: nat, b: nat, j: nat)
    requires a <= b <= |s| && TokenAt(s[a..b], j)
    ensures TokenAt(s, a + j)
  {
    var t := s[a..b];
    assert t[j] == s[a + j] && t[j + 1] == s[a + j + 1] && t[j + 2] == s[a + j + 2];
    assert t[j + 3] == s[a + j + 3] && t[j + 4] == s[a + j + 4];
  }

  /** What one pass of the loop cuts out: a body holding no token, not
      starting with a line end, and not empty when it runs to the end. */
  lemma SectionAtShape(s: string, p: nat)
    requires TokenAt(s, p)
    requires SectionAt(s, p).Ok?
    ensures NoToken(SectionAt(s, p).value.0.body)
    ensures |SectionAt(s, p).value.0.body| > 0 ==> !IsLineEnd(SectionAt(s, p).value.0.body[0])
    ensures SectionAt(s, p).value.1.None? ==> |SectionAt(s, p).value.0.body| > 0
  {
    var eol := FindLineEnd(s, p).value;
    TokenChars(s, p);
    var start := FindNonLineEnd(s, eol).value;
    BodyShape(s, start);
  }

  /** Conversely, whatever a successful split returns can be rendered: bodies
      hold no token, start with no line end, and the last one is not empty. */
  lemma {:induction false} SectionsFromRenderable(s: string, pos: Option<nat>)
    requires pos.Some? ==> TokenAt(s, pos.value)
    ensures SectionsFrom(s, pos).Ok? ==> Renderable(SectionsFrom(s, pos).value)
    decreases if pos.Some? then |s| - pos.value + 1 else 0
  {
    if pos.Some? && SectionsFrom(s, pos).Ok? {
      var step := SectionAt(s, pos.value);
      var sec, next := step.value.0, step.value.1;
      SectionAtShape(s, pos.value);
      SectionsFromRenderable(s, next);
      var rest := SectionsFrom(s, next).value;
      var secs := [sec] + rest;
      assert SectionsFrom(s, pos).value == secs;
      if next.None? {
        assert rest == [];
      }
      forall i | 0 <= i < |secs|
        ensures NoToken(secs[i].body)
        ensures |secs[i].body| > 0 ==> !IsLineEnd(secs[i].body[0])
      {
        if i > 0 {
          assert secs[i] == rest[i - 1];
        }
      }
    }
  }

  lemma SplitRenderable(s: string)
    ensures Sections(s).Ok? ==> Renderable(Sections(s).value)
  {
    SectionsFromRenderable(s, FindToken(s, 0));
  }

  /** Only the three stage names and the alias "pixel" name a stage. */
  lemma StageLookup(name: string)
    ensures StageFromString(name) == Some(Vertex) <==> name == "vertex"
    ensures StageFromString(name) == Some(Fragment) <==> name == "fragment" || name == "pixel"
    ensures StageFromString(name) == Some(Geometry) <==> name == "geometry"
    ensures StageFromString(name).None? <==> name != "vertex" && name != "fragment" && name != "pixel" && name != "geometry"
  {
  }

  /** A buffer without a directive has no sections, so its stage map is empty. */
  lemma NoDirectiveNoSections(s: string)
    requires NoToken(s)
    ensures Sections(s) == Ok([])
    ensures StageMap([]) == map[]
  {
    FindTokenNone(s, 0);
  }

  // ---------------------------------------------------------------------------
  // The failure cases.

  /** An unrecognised stage name on a directive line aborts the split. */
  lemma UnknownStageRejected(pre: string, name: string, rest: string)
    requires NoToken(pre)
    requires |name| > 0 && forall k :: 0 <= k < |name| ==> !IsLineEnd(name[k])
    requires StageFromString(name).None?
    ensures Sections(pre + DirectiveOf(name) + rest) == Err(UnknownStage(name))
  {
    var s := pre + DirectiveOf(name) + rest;
    DirectiveOfAt(pre, name, rest);
    DirectiveLineSearch(s, |pre|, name);
    FirstTokenAfter(pre, s);
    assert SectionAt(s, |pre|) == Err(UnknownStage(name));
  }

  /** A directive with no line end after it aborts the split. */
  lemma MissingLineEndRejected(pre: string, tail: string)
    requires NoToken(pre)
    requires forall k :: 0 <= k < |tail| ==> !IsLineEnd(tail[k])
    ensures Sections(pre + TypeToken + tail) == Err(MissingLineEnd(|pre|))
  {
    var s := pre + TypeToken + tail;
    var p := |pre|;
    assert s[p] == '#' && s[p + 1] == 't' && s[p + 2] == 'y' && s[p + 3] == 'p' && s[p + 4] == 'e';
    assert TokenAt(s, p);
    assert s[..p] == pre;
    FirstTokenAfter(pre, s);
    forall j | p <= j < |s|
      ensures !IsLineEnd(s[j])
    {
      if j >= p + |TypeToken| {
        assert s[j] == tail[j - p - |TypeToken|];
      }
    }
    assert FindLineEnd(s, p) == None;
    assert SectionAt(s, p) == Err(MissingLineEnd(p));
  }

  /** A directive followed only by line ends has no body to cut out: the
      source's `substr` is handed `npos` and throws. */
  lemma TrailingDirectiveRejected(pre: string, st: Stage, tail: string)
    requires NoToken(pre)
    requires forall k :: 0 <= k < |tail| ==> IsLineEnd(tail[k])
    ensures Sections(pre + Directive(st) + tail) == Err(BodyOutOfRange(|pre|))
  {
    var name := StageName(st);
    StageNameChars(st);
    var s := pre + DirectiveOf(name) + tail;
    DirectiveOfAt(pre, name, tail);
    TrailingLine(s, |pre|, name, st, tail);
    FirstTokenAfter(pre, s);
    SectionsFromErr(s, |pre|);
  }

  lemma TrailingLine(s: string, p: nat, name: string, st: Stage, tail: string)
    requires DirectiveLineAt(s, p, name)
    requires |name| > 0 && forall k :: 0 <= k < |name| ==> !IsLineEnd(name[k])
    requires StageFromString(name) == Some(st)
    requires s[p + |TypeToken| + 2 + |name|..] == tail
    requires forall k :: 0 <= k < |tail| ==> IsLineEnd(tail[k])
    ensures SectionAt(s, p) == Err(BodyOutOfRange(p))
  {
    var eol := p + |TypeToken| + 1 + |name|;
    DirectiveLineSearch(s, p, name);
    forall j | eol <= j < |s|
      ensures IsLineEnd(s[j])
    {
      if j > eol {
        assert s[j] == tail[j - eol - 1];
      }
    }
    assert FindNonLineEnd(s, eol) == None;
  }

  lemma TwoStageRender()
    ensures Render([Section(Vertex, "A\n"), Section(Fragment, "B\n")])
         == "#type vertex\nA\n#type fragment\nB\n"
  {
    var secs := [Section(Vertex, "A\n"), Section(Fragment, "B\n")];
    var names := StageNames(secs);
    assert names == ["vertex", "fragment"];
    var tail := RenderNamed(secs[1..], names[1..]);
    assert RenderNamed(secs[1..][1..], names[1..][1..]) == "";
    assert DirectiveOf("fragment") == "#type fragment\n";
    assert tail == "#type fragment\n" + "B\n" + "";
    assert DirectiveOf("vertex") == "#type vertex\n";
    assert RenderNamed(secs, names) == "#type vertex\n" + "A\n" + tail;
  }

  /** The buffer `#type vertex\nA\n#type fragment\nB\n` splits into its vertex
      and fragment sources. */
  lemma TwoStageExample()
    ensures Sections("#type vertex\nA\n#type fragment\nB\n")
         == Ok([Section(Vertex, "A\n"), Section(Fragment, "B\n")])
    ensures StageMap([Section(Vertex, "A\n"), Section(Fragment, "B\n")])
         == map[Vertex := "A\n", Fragment := "B\n"]
  {
    TwoStageSections();
    TwoStageMap();
  }

  lemma TwoStageSections()
    ensures Sections("#type vertex\nA\n#type fragment\nB\n")
         == Ok([Section(Vertex, "A\n"), Section(Fragment, "B\n")])
  {
    var secs := [Section(Vertex, "A\n"), Section(Fragment, "B\n")];
    TwoStageRender();
    assert Renderable(secs) by {
      assert NoToken(secs[0].body) && NoToken(secs[1].body);
    }
    SplitRender("", secs);
    assert "" + Render(secs) == Render(secs);
  }

  lemma TwoStageMap()
    ensures StageMap([Section(Vertex, "A\n"), Section(Fragment, "B\n")])
         == map[Vertex := "A\n", Fragment := "B\n"]
  {
    var secs := [Section(Vertex, "A\n"), Section(Fragment, "B\n")];
    assert secs[..1] == [Section(Vertex, "A\n")];
    assert secs[..1][..0] == [];
  }
}
