/**
 * Node records: the three fixed `repr(C)` header layouts, their decoding from
 * the byte region at a node offset, and nodes addressed by id or by offset
 * (offset = id * node_size).
 */
module Nodes {
  import opened Wrappers
  import opened Bytes
  import opened IndexTypes

  datatype Layout = AngularLayout | MinkowskiLayout | DotLayout

  /** The header fields: `n_descendants: i32`, `bias: f32`, `children: [i32; 2]`, `dot_factor: f32`. */
  datatype Field = NDescendants | Bias | Children | DotFactor

  function FieldSize(f: Field): nat
  {
    match f
    case Children => 8
    case _ => 4
  }

  /** Declaration order of the fields in each header struct. */
  function Fields(l: Layout): seq<Field>
  {
    match l
    case AngularLayout => [NDescendants, Children]
    case MinkowskiLayout => [NDescendants, Bias, Children]
    case DotLayout => [NDescendants, Children, DotFactor]
  }

  /**
   * `repr(C)` places the fields in declaration order; every field here has
   * alignment 4 and a size that is a multiple of 4, so there is no padding.
   */
  function SizeOf(fs: seq<Field>): nat
  {
    if fs == [] then 0 else FieldSize(fs[0]) + SizeOf(fs[1..])
  }

  function OffsetIn(fs: seq<Field>, f: Field): nat
    requires f in fs
  {
    if fs[0] == f then 0 else FieldSize(fs[0]) + OffsetIn(fs[1..], f)
  }

  /** `size_of::<NodeHeader…>()`. */
  function HeaderSize(l: Layout): nat
  {
    SizeOf(Fields(l))
  }

  function FieldOffset(l: Layout, f: Field): nat
    requires f in Fields(l)
  {
    OffsetIn(Fields(l), f)
  }

  /** Angular headers take 12 bytes, Minkowski and Dot headers 16. */
  lemma HeaderSizes()
    ensures HeaderSize(AngularLayout) == 12
    ensures HeaderSize(MinkowskiLayout) == 16
    ensures HeaderSize(DotLayout) == 16
  {
  }

  /** Where each field starts inside its header. */
  lemma FieldOffsets(l: Layout)
    ensures FieldOffset(l, NDescendants) == 0
    ensures FieldOffset(l, Children) == (if l == MinkowskiLayout then 8 else 4)
    ensures l == MinkowskiLayout ==> FieldOffset(l, Bias) == 4
    ensures l == DotLayout ==> FieldOffset(l, DotFactor) == 12
  {
  }

  /** Every field lies inside its header. */
  lemma {:induction false} FieldInside(fs: seq<Field>, f: Field)
    requires f in fs
    ensures OffsetIn(fs, f) + FieldSize(f) <= SizeOf(fs)
  {
    if fs[0] != f {
      FieldInside(fs[1..], f);
    }
  }

  /** The header layout an index type decodes with; Hamming has none. */
  function HeaderLayout(t: IndexType): (r: Option<Layout>)
    ensures r.None? <==> t == Hamming
    ensures t == Angular ==> r == Some(AngularLayout)
    ensures t == Euclidean || t == Manhattan ==> r == Some(MinkowskiLayout)
    ensures t == Dot ==> r == Some(DotLayout)
  {
    match t
    case Angular => Some(AngularLayout)
    case Euclidean => Some(MinkowskiLayout)
    case Manhattan => Some(MinkowskiLayout)
    case Dot => Some(DotLayout)
    case Hamming => None
  }

  datatype NodeHeader =
    | AngularHeader(nDescendants: int, children: seq<int>)
    | MinkowskiHeader(nDescendants: int, bias: F32, children: seq<int>)
    | DotHeader(nDescendants: int, children: seq<int>, dotFactor: F32)
  {
    function LayoutOf(): Layout
    {
      match this
      case AngularHeader(_, _) => AngularLayout
      case MinkowskiHeader(_, _, _) => MinkowskiLayout
      case DotHeader(_, _, _) => DotLayout
    }
  }

  /** The header struct overlaid on the bytes at offset, read field by field. */
  function ReadHeader(buf: seq<byte>, offset: nat, l: Layout): (h: NodeHeader)
    requires offset + HeaderSize(l) <= |buf|
    ensures h.LayoutOf() == l
    ensures h.nDescendants == ReadI32(buf, offset + FieldOffset(l, NDescendants))
    ensures h.children == ReadI32Slice(buf, offset + FieldOffset(l, Children), 2)
    ensures h.MinkowskiHeader? ==> h.bias == ReadF32(buf, offset + FieldOffset(l, Bias))
    ensures h.DotHeader? ==> h.dotFactor == ReadF32(buf, offset + FieldOffset(l, DotFactor))
  {
    match l
    case AngularLayout =>
      AngularHeader(ReadI32(buf, offset), ReadI32Slice(buf, offset + 4, 2))
    case MinkowskiLayout =>
      MinkowskiHeader(ReadI32(buf, offset), ReadF32(buf, offset + 4), ReadI32Slice(buf, offset + 8, 2))
    case DotLayout =>
      DotHeader(ReadI32(buf, offset), ReadI32Slice(buf, offset + 4, 2), ReadF32(buf, offset + 12))
  }

  /** The header needs HeaderSize bytes from offset (no requirement for Hamming, which fails first). */
  predicate HeaderFits(buf: seq<byte>, offset: nat, t: IndexType)
  {
    HeaderLayout(t).Some? ==> offset + HeaderSize(HeaderLayout(t).value) <= |buf|
  }

  /** `NodeHeader::new`: the layout is chosen by index type alone; Hamming is not implemented. */
  function NewHeader(offset: nat, t: IndexType, buf: seq<byte>): (r: Option<NodeHeader>)
    requires HeaderFits(buf, offset, t)
    ensures r.None? <==> t == Hamming
    ensures r.Some? ==> r.value == ReadHeader(buf, offset, HeaderLayout(t).value)
  {
    match HeaderLayout(t)
    case None => None
    case Some(l) => Some(ReadHeader(buf, offset, l))
  }

  /**
   * `get_n_descendant` is the first header field and `get_children_id_slice`
   * the two children ids, whatever the variant.
   */
  lemma HeaderAccessors(offset: nat, t: IndexType, buf: seq<byte>)
    requires t != Hamming && HeaderFits(buf, offset, t)
    ensures var h := NewHeader(offset, t, buf).value;
      var c := if t == Euclidean || t == Manhattan then 8 else 4;
      && h.nDescendants == ReadI32(buf, offset)
      && h.children == [ReadI32(buf, offset + c), ReadI32(buf, offset + c + 4)]
  {
    FieldOffsets(HeaderLayout(t).value);
  }

  datatype Node = Node(id: nat, offset: nat, header: NodeHeader)

  /** `Node::new_with_id`: the node at offset id * node_size. */
  function NewWithId(id: nat, nodeSize: nat, t: IndexType, buf: seq<byte>): (r: Option<Node>)
    requires HeaderFits(buf, id * nodeSize, t)
    ensures r.None? <==> t == Hamming
    ensures r.Some? ==> r.value.id == id && r.value.offset == id * nodeSize
    ensures r.Some? ==> Some(r.value.header) == NewHeader(id * nodeSize, t, buf)
  {
    var offset := id * nodeSize;
    match NewHeader(offset, t, buf)
    case None => None
    case Some(h) => Some(Node(id, offset, h))
  }

  /** `Node::new_with_offset`: the id is the offset divided by node_size. */
  function NewWithOffset(offset: nat, nodeSize: nat, t: IndexType, buf: seq<byte>): (r: Option<Node>)
    requires nodeSize > 0 && HeaderFits(buf, offset, t)
    ensures r.None? <==> t == Hamming
    ensures r.Some? ==> r.value.offset == offset
    ensures r.Some? ==> r.value.id * nodeSize <= offset < (r.value.id + 1) * nodeSize
    ensures r.Some? ==> Some(r.value.header) == NewHeader(offset, t, buf)
  {
    var id := offset / nodeSize;
    DivBounds(offset, nodeSize);
    assert id * nodeSize <= offset < (id + 1) * nodeSize;
    match NewHeader(offset, t, buf)
    case None => None
    case Some(h) => Some(Node(id, offset, h))
  }

  /** Addressing by id and then by the resulting offset gives back the same node. */
  lemma IdOffsetRoundTrip(id: nat, nodeSize: nat, t: IndexType, buf: seq<byte>)
    requires nodeSize > 0 && t != Hamming && HeaderFits(buf, id * nodeSize, t)
    ensures NewWithOffset(NewWithId(id, nodeSize, t, buf).value.offset, nodeSize, t, buf)
            == NewWithId(id, nodeSize, t, buf)
  {
    var n := NewWithId(id, nodeSize, t, buf).value;
    var m := NewWithOffset(n.offset, nodeSize, t, buf).value;
    MulDivUnique(id, m.id, nodeSize, n.offset);
  }

  /** Addressing by offset and then by the resulting id returns to the offset iff it is a multiple of node_size. */
  lemma OffsetIdRoundTrip(offset: nat, nodeSize: nat, t: IndexType, buf: seq<byte>)
    requires nodeSize > 0 && t != Hamming && HeaderFits(buf, offset, t)
    ensures var id := NewWithOffset(offset, nodeSize, t, buf).value.id;
      id * nodeSize <= offset && (id * nodeSize == offset <==> offset % nodeSize == 0)
  {
    var id := offset / nodeSize;
    assert offset == id * nodeSize + offset % nodeSize;
  }

  /** The quotient is the only id whose node interval holds the offset. */
  lemma MulDivUnique(a: nat, b: nat, n: nat, x: nat)
    requires n > 0 && a * n <= x < (a + 1) * n && b * n <= x < (b + 1) * n
    ensures a == b
  {
    if a < b {
      assert (a + 1) * n <= b * n by { MulMono(a + 1, b, n); }
    } else if b < a {
      assert (b + 1) * n <= a * n by { MulMono(b + 1, a, n); }
    }
  }

  lemma DivBounds(x: nat, n: nat)
    requires n > 0
    ensures (x / n) * n <= x < (x / n + 1) * n
  {
    assert x == (x / n) * n + x % n;
  }

  lemma MulMono(a: nat, b: nat, n: nat)
    requires a <= b
    ensures a * n <= b * n
  {
  }
}
