/** Vertex attribute layout: per-type byte sizes and component counts, and the
    left-to-right pass that assigns each element its byte offset and the layout
    its stride. Sizes and offsets are unbounded naturals here; the source keeps
    them in 32-bit unsigned fields. */
module Buffer {

  datatype ShaderDataType =
    | None
    | Float | Float2 | Float3 | Float4
    | Mat3 | Mat4
    | Int | Int2 | Int3 | Int4
    | Bool

  /** Bytes of one component: `sizeof(float)` and `sizeof(int)` are 4, `sizeof(bool)` is 1. */
  function ComponentBytes(t: ShaderDataType): nat
  {
    if t == Bool then 1 else 4
  }

  /** Number of scalar components of an attribute. The source's switch has no
      `None` case and no return after it, so `None` is excluded. */
  function ComponentCount(t: ShaderDataType): (r: nat)
    requires t != None
    ensures 1 <= r <= 16
  {
    match t
    case Float => 1
    case Float2 => 2
    case Float3 => 3
    case Float4 => 4
    case Mat3 => 3 * 3
    case Mat4 => 4 * 4
    case Int => 1
    case Int2 => 2
    case Int3 => 3
    case Int4 => 4
    case Bool => 1
  }

  /** Byte size of an attribute of type `t`; `None` trips the source's
      assertion and yields 0. */
  function ShaderDataTypeSize(t: ShaderDataType): (r: nat)
    ensures r == 0 <==> t == None
    ensures t != None ==> r == ComponentCount(t) * ComponentBytes(t)
  {
    match t
    case None => 0
    case Float => 4
    case Float2 => 4 * 2
    case Float3 => 4 * 3
    case Float4 => 4 * 4
    case Mat3 => 4 * 3 * 3
    case Mat4 => 4 * 4 * 4
    case Int => 4
    case Int2 => 4 * 2
    case Int3 => 4 * 3
    case Int4 => 4 * 4
    case Bool => 1
  }

  datatype BufferElement = BufferElement(
    name: string,
    dataType: ShaderDataType,
    size: nat,
    offset: nat,
    normalized: bool)

  /** `BufferElement(type, name, normalize = false)`. */
  function NewElement(t: ShaderDataType, name: string, normalized: bool := false): (e: BufferElement)
    ensures e.name == name && e.dataType == t && e.normalized == normalized
    ensures e.offset == 0
    ensures t != None ==> e.size == ComponentCount(t) * ComponentBytes(t)
    ensures e.size == 0 <==> t == None
  {
    BufferElement(name, t, ShaderDataTypeSize(t), 0, normalized)
  }

  /** `BufferElement::GetComponentCount`. */
  function GetComponentCount(e: BufferElement): (r: nat)
    requires e.dataType != None
    ensures e.size == ShaderDataTypeSize(e.dataType) ==> e.size == r * ComponentBytes(e.dataType)
  {
    ComponentCount(e.dataType)
  }

  datatype BufferLayout = BufferLayout(elements: seq<BufferElement>, stride: nat)

  /** `BufferLayout()`: no elements and a stride of 0. */
  const EmptyLayout: BufferLayout := BufferLayout([], 0)

  /** Total byte size of a run of elements. */
  function SumSizes(es: seq<BufferElement>): nat
  {
    if |es| == 0 then 0 else es[0].size + SumSizes(es[1..])
  }

  /** `l` is what the offset pass makes of `es`: the same elements in the same
      order, each with its offset set to the bytes before it, and the stride
      set to the bytes of all of them. */
  ghost predicate LaidOut(es: seq<BufferElement>, l: BufferLayout)
  {
    && |l.elements| == |es|
    && (forall i :: 0 <= i < |es| ==> l.elements[i] == es[i].(offset := SumSizes(es[..i])))
    && l.stride == SumSizes(es)
  }

  lemma {:induction false} SumSizesSnoc(es: seq<BufferElement>, e: BufferElement)
    ensures SumSizes(es + [e]) == SumSizes(es) + e.size
    decreases |es|
  {
    if |es| == 0 {
      assert es + [e] == [e];
      assert [e][1..] == [];
    } else {
      assert (es + [e])[1..] == es[1..] + [e];
      SumSizesSnoc(es[1..], e);
    }
  }

  /** `BufferLayout(elements)`: the constructor runs `CalculateOffsetsAndStride`,
      which restarts offset and stride at 0 and walks the elements once. */
  method CalculateOffsetsAndStride(es: seq<BufferElement>) returns (l: BufferLayout)
    ensures |l.elements| == |es|
    ensures forall i :: 0 <= i < |es| ==> l.elements[i] == es[i].(offset := SumSizes(es[..i]))
    ensures l.stride == SumSizes(es)
  {
    var offset: nat := 0;
    var stride: nat := 0;
    var laid: seq<BufferElement> := [];
    var i := 0;
    while i < |es|
      invariant 0 <= i <= |es|
      invariant |laid| == i
      invariant offset == SumSizes(es[..i])
      invariant stride == SumSizes(es[..i])
      invariant forall j :: 0 <= j < i ==> laid[j] == es[j].(offset := SumSizes(es[..j]))
    {
      laid := laid + [es[i].(offset := offset)];
      SumSizesSnoc(es[..i], es[i]);
      assert es[..i + 1] == es[..i] + [es[i]];
      offset := offset + es[i].size;
      stride := stride + es[i].size;
      i := i + 1;
    }
    assert es[..|es|] == es;
    l := BufferLayout(laid, stride);
  }

  /** Only offsets enter the pass's output that were not in its input: the
      element count, order, names, types, sizes and normalized flags survive. */
  lemma LayoutKeepsElements(es: seq<BufferElement>, l: BufferLayout, i: nat)
    requires LaidOut(es, l)
    requires i < |es|
    ensures l.elements[i].name == es[i].name
    ensures l.elements[i].dataType == es[i].dataType
    ensures l.elements[i].size == es[i].size
    ensures l.elements[i].normalized == es[i].normalized
  {
  }

  /** Offsets only see sizes, so two runs with the same sizes have the same sums. */
  lemma {:induction false} SumSizesOfSameSizes(a: seq<BufferElement>, b: seq<BufferElement>)
    requires |a| == |b|
    requires forall i :: 0 <= i < |a| ==> a[i].size == b[i].size
    ensures SumSizes(a) == SumSizes(b)
    decreases |a|
  {
    if |a| > 0 {
      SumSizesOfSameSizes(a[1..], b[1..]);
    }
  }

  /** Running the pass again over an already laid-out element list changes
      nothing: offsets and stride are reset before they are accumulated. */
  lemma LayoutIdempotent(es: seq<BufferElement>, l: BufferLayout)
    requires LaidOut(es, l)
    ensures LaidOut(l.elements, l)
  {
    forall i | 0 <= i < |es|
      ensures SumSizes(l.elements[..i]) == SumSizes(es[..i])
    {
      SumSizesOfSameSizes(l.elements[..i], es[..i]);
    }
    SumSizesOfSameSizes(l.elements, es);
  }

  /** The pass is deterministic: a list of elements has exactly one layout. */
  lemma LayoutUnique(es: seq<BufferElement>, l1: BufferLayout, l2: BufferLayout)
    requires LaidOut(es, l1) && LaidOut(es, l2)
    ensures l1 == l2
  {
    assert l1.elements == l2.elements;
  }

  /** Each element starts where the previous one ends, and the stride is where
      the last one ends; an empty layout has stride 0. */
  lemma {:induction false} LayoutIsContiguous(es: seq<BufferElement>, l: BufferLayout)
    requires LaidOut(es, l)
    ensures |es| == 0 ==> l.stride == 0
    ensures forall i :: 0 <= i < |es| - 1 ==>
      l.elements[i + 1].offset == l.elements[i].offset + l.elements[i].size
    ensures |es| > 0 ==> l.stride == l.elements[|es| - 1].offset + l.elements[|es| - 1].size
  {
    forall i | 0 <= i < |es|
      ensures SumSizes(es[..i + 1]) == SumSizes(es[..i]) + es[i].size
    {
      assert es[..i + 1] == es[..i] + [es[i]];
      SumSizesSnoc(es[..i], es[i]);
    }
    if |es| > 0 {
      assert es[..|es|] == es;
    }
  }

  /** The default-constructed layout is the laid-out form of no elements. */
  lemma EmptyLayoutLaidOut()
    ensures LaidOut([], EmptyLayout)
  {
  }
}
