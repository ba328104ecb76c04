/** The display name a shader takes from its file path: the text after the
    last directory separator, up to the last dot. The source computes it with
    `std::string` searches and `size_t` arithmetic, which is spelled out here. */
module ShaderName {
  import opened Base

  /** `size_t` is 64 bits wide: differences of positions wrap modulo this. */
  const SizeModulus: nat := 0x1_0000_0000_0000_0000

  /** The characters `find_last_of("/\\")` looks for. */
  const Separators: set<char> := {'/', '\\'}

  /** `s.find_last_of(cs)` restricted to `s[..n]`; `None` is `npos`. With a
      one-character set this is also `s.rfind(c)`. */
  function LastIndexOf(s: string, n: nat, cs: set<char>): (r: Option<nat>)
    requires n <= |s|
    ensures r.Some? ==> r.value < n && s[r.value] in cs
    ensures r.Some? ==> forall j :: r.value < j < n ==> s[j] !in cs
    ensures r.None? ==> forall j :: 0 <= j < n ==> s[j] !in cs
    decreases n
  {
    if n == 0 then None
    else if s[n - 1] in cs then Some(n - 1)
    else LastIndexOf(s, n - 1, cs)
  }

  /** `s.substr(pos, count)`: the count is clamped to what is left of `s`.
      The source only ever passes a position inside the string or at its end. */
  function Substr(s: string, pos: nat, count: nat): (r: string)
    requires pos <= |s|
    ensures |r| <= count && |r| <= |s| - pos
    ensures |r| == count || |r| == |s| - pos
    ensures r == s[pos..pos + |r|]
  {
    if count <= |s| - pos then s[pos..pos + count] else s[pos..]
  }

  /** Where the name starts: one past the last separator, or 0. */
  function NameStart(path: string): (b: nat)
    ensures b <= |path|
    ensures forall j :: b <= j < |path| ==> path[j] !in Separators
    ensures b == 0 || path[b - 1] in Separators
  {
    var lastSlash := LastIndexOf(path, |path|, Separators);
    if lastSlash.None? then 0 else lastSlash.value + 1
  }

  /** The name the path-taking constructors give the shader. When the last dot
      comes before the last separator, `lastDot - lastSlash` wraps around and
      `substr` clamps, so the whole remainder is taken. */
  function DisplayName(path: string): (name: string)
    ensures NameStart(path) + |name| <= |path|
    ensures name == path[NameStart(path)..NameStart(path) + |name|]
    ensures forall k :: 0 <= k < |name| ==> name[k] !in Separators
  {
    var begin := NameStart(path);
    var lastDot := LastIndexOf(path, |path|, {'.'});
    var count := if lastDot.None? then |path| - begin else (lastDot.value - begin) % SizeModulus;
    Substr(path, begin, count)
  }

  /** `path` is `dir + stem + ext` where `dir` is empty or ends at a
      separator, `stem + ext` holds no separator, and `ext` is the extension:
      empty when the part after the directory holds no dot, and otherwise
      running from the last dot to the end. */
  predicate IsSplit(path: string, dir: string, stem: string, ext: string)
  {
    && path == dir + stem + ext
    && (|dir| == 0 || dir[|dir| - 1] in Separators)
    && (forall k :: 0 <= k < |stem| ==> stem[k] !in Separators)
    && (forall k :: 0 <= k < |ext| ==> ext[k] !in Separators)
    && (|ext| == 0 ==> forall k :: 0 <= k < |stem| ==> stem[k] != '.')
    && (|ext| > 0 ==> ext[0] == '.' && forall k :: 0 < k < |ext| ==> ext[k] != '.')
  }

  /** The display name is the stem of the path: what is left once the
      directory and the extension are cut off. Paths are shorter than
      `size_t` can count, which is what makes the wrapped count clamp. */
  lemma DisplayNameSplit(path: string) returns (dir: string, ext: string)
    requires |path| < SizeModulus
    ensures IsSplit(path, dir, DisplayName(path), ext)
  {
    var b := NameStart(path);
    var lastDot := LastIndexOf(path, |path|, {'.'});
    var name := DisplayName(path);
    dir := path[..b];
    if lastDot.Some? && lastDot.value >= b {
      assert |name| == lastDot.value - b;
      ext := path[lastDot.value..];
    } else {
      if lastDot.Some? {
        WrappedCount(lastDot.value, b, |path|);
      }
      assert |name| == |path| - b;
      ext := [];
    }
    assert path == dir + name + ext;
  }

  /** `lastDot - lastSlash` for a dot before the name start wraps to a count
      that reaches past the end of the path. */
  lemma WrappedCount(d: nat, b: nat, n: nat)
    requires d < b <= n < SizeModulus
    ensures (d - b) % SizeModulus == SizeModulus + d - b
    ensures (d - b) % SizeModulus >= n - b
  {
  }

  /** A split's directory runs up to the last separator. */
  lemma SplitDir(path: string, dir: string, rest: string)
    requires path == dir + rest
    requires |dir| == 0 || dir[|dir| - 1] in Separators
    requires forall k :: 0 <= k < |rest| ==> rest[k] !in Separators
    ensures dir == path[..NameStart(path)] && rest == path[NameStart(path)..]
  {
    assert forall j :: |dir| <= j < |path| ==> path[j] == rest[j - |dir|];
    assert |dir| == 0 || path[|dir| - 1] in Separators;
    assert |dir| == NameStart(path);
    assert dir == path[..|dir|] && rest == path[|dir|..];
  }

  /** Where the extension starts in the part after the directory: at its
      last dot, or at its end when it has none. */
  function StemLength(t: string): nat
  {
    var lastDot := LastIndexOf(t, |t|, {'.'});
    if lastDot.None? then |t| else lastDot.value
  }

  /** A split's stem runs up to the last dot after the directory. */
  lemma SplitStem(t: string, stem: string, ext: string)
    requires t == stem + ext
    requires |ext| == 0 ==> forall k :: 0 <= k < |stem| ==> stem[k] != '.'
    requires |ext| > 0 ==> ext[0] == '.' && forall k :: 0 < k < |ext| ==> ext[k] != '.'
    ensures StemLength(t) <= |t|
    ensures stem == t[..StemLength(t)] && ext == t[StemLength(t)..]
  {
    assert forall j :: |stem| < j < |t| ==> t[j] == ext[j - |stem|];
    assert forall j :: 0 <= j < |stem| ==> t[j] == stem[j];
    assert |ext| > 0 ==> t[|stem|] == '.';
    assert |stem| == StemLength(t);
    assert stem == t[..|stem|] && ext == t[|stem|..];
  }

  /** A path splits in only one way. */
  lemma SplitUnique(path: string, d1: string, s1: string, e1: string, d2: string, s2: string, e2: string)
    requires IsSplit(path, d1, s1, e1) && IsSplit(path, d2, s2, e2)
    ensures d1 == d2 && s1 == s2 && e1 == e2
  {
    var r1, r2 := s1 + e1, s2 + e2;
    assert path == d1 + r1 && path == d2 + r2;
    SplitDir(path, d1, r1);
    SplitDir(path, d2, r2);
    SplitStem(r1, s1, e1);
    SplitStem(r2, s2, e2);
  }

  /** The name is exactly the part between the directory and the extension. */
  lemma DisplayNameIsStem(path: string, dir: string, stem: string, ext: string)
    requires |path| < SizeModulus
    requires IsSplit(path, dir, stem, ext)
    ensures DisplayName(path) == stem
  {
    var d, e := DisplayNameSplit(path);
    SplitUnique(path, d, DisplayName(path), e, dir, stem, ext);
  }

  /** The path used throughout the engine's sandbox. */
  lemma TextureExample()
    ensures DisplayName("assets/shaders/Texture.glsl") == "Texture"
  {
    var path := "assets/shaders/Texture.glsl";
    assert path == "assets/shaders/" + "Texture" + ".glsl";
    DisplayNameIsStem(path, "assets/shaders/", "Texture", ".glsl");
  }

  /** A dot that only appears in a directory name is not an extension. */
  lemma DotInDirectoryExample()
    ensures DisplayName("v1.2/flat") == "flat"
  {
    var path := "v1.2/flat";
    assert path == "v1.2/" + "flat" + "";
    DisplayNameIsStem(path, "v1.2/", "flat", "");
  }
}
