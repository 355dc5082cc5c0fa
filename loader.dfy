/**
 * `AnnoyIndex::load`: choose the header geometry for the metric, derive the
 * node size, scan the byte region backwards for the tree roots (the roots are
 * the trailing run of nodes with one and the same descendant count), and drop
 * the duplicated last root.  Opening and mapping the file is replaced by the
 * byte sequence itself.
 */
module Loader {
  import opened Wrappers
  import opened Bytes
  import opened IndexTypes
  import opened Nodes
  import opened Kernels
  import Serving

  datatype LoadError = NotSupported

  /** `(offset_before_children, header size)`; only Angular and Euclidean are supported. */
  function HeaderGeometry(t: IndexType): (r: Result<(nat, nat), LoadError>)
    ensures r.Ok? <==> t == Angular || t == Euclidean
    ensures t == Angular ==> r == Ok((4, 12))
    ensures t == Euclidean ==> r == Ok((8, 16))
  {
    match t
    case Angular => Ok((4, 12))
    case Euclidean => Ok((8, 16))
    case _ => Err(NotSupported)
  }

  /** The geometry agrees with the header structs: children offset and struct size of the metric's layout. */
  lemma GeometryMatchesLayout(t: IndexType)
    requires HeaderGeometry(t).Ok?
    ensures HeaderLayout(t).Some?
    ensures HeaderGeometry(t).value.0 == FieldOffset(HeaderLayout(t).value, Children)
    ensures HeaderGeometry(t).value.1 == HeaderSize(HeaderLayout(t).value)
  {
    FieldOffsets(HeaderLayout(t).value);
  }

  /** The j-th offset the scan visits, counting back from the end of the region. */
  function ScanOffset(fileSize: nat, nodeSize: nat, j: nat): int
  {
    fileSize - (j + 1) * nodeSize
  }

  /**
   * Whether the scan accepts its j-th offset: the first always, later ones when
   * the descendant count of the previously accepted node is the sentinel -1
   * or equals the count read here.
   */
  predicate Accepts(storage: seq<byte>, nodeSize: nat, j: nat)
    requires nodeSize >= 4 && ScanOffset(|storage|, nodeSize, j) >= 0
  {
    var k := ReadI32(storage, ScanOffset(|storage|, nodeSize, j));
    j == 0 || (var m := ReadI32(storage, ScanOffset(|storage|, nodeSize, j - 1)); m == -1 || k == m)
  }

  /** roots is the outcome of the backward scan: the accepted offsets up to the first refusal or the start of the region. */
  predicate IsScan(storage: seq<byte>, nodeSize: nat, roots: seq<nat>)
    requires nodeSize >= 4
  {
    && (forall j :: 0 <= j < |roots| ==> roots[j] == ScanOffset(|storage|, nodeSize, j))
    && (forall j :: 0 <= j < |roots| ==> Accepts(storage, nodeSize, j))
    && (ScanOffset(|storage|, nodeSize, |roots|) < 0 || !Accepts(storage, nodeSize, |roots|))
  }

  /** The `while i >= 0` loop over offsets file_size - node_size, file_size - 2 * node_size, … */
  method ScanRoots(storage: seq<byte>, nodeSize: nat) returns (roots: seq<nat>)
    requires nodeSize >= 4
    ensures IsScan(storage, nodeSize, roots)
  {
    roots := [];
    var m := -1;
    var i: int := |storage| - nodeSize;
    while i >= 0
      invariant i == ScanOffset(|storage|, nodeSize, |roots|)
      invariant forall j :: 0 <= j < |roots| ==> roots[j] == ScanOffset(|storage|, nodeSize, j)
      invariant forall j :: 0 <= j < |roots| ==> Accepts(storage, nodeSize, j)
      invariant |roots| == 0 ==> m == -1
      invariant |roots| > 0 ==> m == ReadI32(storage, roots[|roots| - 1])
      decreases i + nodeSize
    {
      var k := ReadI32(storage, i);
      if m == -1 || k == m {
        roots := roots + [i];
        m := k;
      } else {
        assert !Accepts(storage, nodeSize, |roots|);
        break;
      }
      i := i - nodeSize;
    }
  }

  /** What a scan looks like: strictly decreasing offsets of whole nodes inside the region, none iff the region is shorter than a node. */
  lemma ScanShape(storage: seq<byte>, nodeSize: nat, roots: seq<nat>)
    requires nodeSize >= 4 && IsScan(storage, nodeSize, roots)
    ensures forall j :: 0 <= j < |roots| ==> roots[j] + nodeSize <= |storage|
    ensures forall i, j :: 0 <= i < j < |roots| ==> roots[j] < roots[i]
    ensures |roots| == 0 <==> |storage| < nodeSize
  {
    forall i, j | 0 <= i < j < |roots|
      ensures roots[j] < roots[i]
    {
      MulMono(i + 1, j, nodeSize);
    }
    if |roots| > 0 {
      assert roots[0] == ScanOffset(|storage|, nodeSize, 0);
    }
  }

  /** The scan is determined by the bytes: two scans of one region are equal. */
  lemma ScanUnique(storage: seq<byte>, nodeSize: nat, a: seq<nat>, b: seq<nat>)
    requires nodeSize >= 4 && IsScan(storage, nodeSize, a) && IsScan(storage, nodeSize, b)
    ensures a == b
  {
  }

  /**
   * Removal of the last root when it precedes the copy of all roots: the
   * first root's left child offset equals the last root's right child offset.
   * The two child-offset readers are parameters.
   */
  function DropDuplicateRoot(roots: seq<nat>, lChild: nat -> int, rChild: nat -> int): (r: seq<nat>)
    ensures r <= roots
    ensures |r| == |roots| - 1 <==> |roots| > 1 && lChild(roots[0]) == rChild(roots[|roots| - 1])
    ensures |r| == |roots| || |r| == |roots| - 1
    ensures |roots| > 0 ==> |r| > 0
  {
    if |roots| > 1 && lChild(roots[0]) == rChild(roots[|roots| - 1]) then roots[..|roots| - 1] else roots
  }

  /**
   * `load`: the index record for a region, or NotSupported for a metric
   * other than Angular or Euclidean.  The item count is supplied as degree.
   */
  method Load(dimension: nat, storage: seq<byte>, indexType: IndexType, degree: nat,
              lChild: nat -> int, rChild: nat -> int)
    returns (r: Result<AnnoyIndex, LoadError>)
    ensures r.Err? <==> indexType != Angular && indexType != Euclidean
    ensures r.Ok? ==> var ix := r.value;
      && ix.dimension == dimension && ix.indexType == indexType && ix.degree == degree
      && ix.storage == storage
      && (ix.offsetBeforeChildren, ix.headerSize) == HeaderGeometry(indexType).value
      && ix.minLeafSize == dimension + 2
      && ix.nodeSize == ix.headerSize + FLOAT32_SIZE * dimension
    ensures r.Ok? ==> exists scan ::
      (IsScan(storage, r.value.nodeSize, scan) && r.value.roots == DropDuplicateRoot(scan, lChild, rChild))
    ensures r.Ok? ==> forall i, j :: 0 <= i < j < |r.value.roots| ==> r.value.roots[j] < r.value.roots[i]
    ensures r.Ok? ==> forall j :: 0 <= j < |r.value.roots| ==> r.value.roots[j] + r.value.nodeSize <= |storage|
    ensures r.Ok? ==> (|r.value.roots| == 0 <==> |storage| < r.value.nodeSize)
    ensures r.Ok? ==> Serving.LayoutOk(r.value)
  {
    var geometry := HeaderGeometry(indexType);
    if geometry.Err? {
      return Err(geometry.error);
    }
    var (offsetBeforeChildren, headerSize) := geometry.value;
    var minLeafSize := dimension + 2;
    var nodeSize := headerSize + FLOAT32_SIZE * dimension;
    var scan := ScanRoots(storage, nodeSize);
    ScanShape(storage, nodeSize, scan);
    var roots := DropDuplicateRoot(scan, lChild, rChild);
    assert forall j :: 0 <= j < |roots| ==> roots[j] == scan[j];
    r := Ok(AnnoyIndex(dimension, indexType, offsetBeforeChildren, headerSize, minLeafSize,
                       nodeSize, degree, roots, storage));
  }

  /**
   * On a loaded geometry the serving accessors read the same fields as
   * `NodeHeader::new`: the descendant count at the node's offset and the two
   * child ids at the offset before the children.
   */
  lemma HeaderAgrees(ix: AnnoyIndex, o: nat)
    requires Serving.LayoutOk(ix) && Serving.NodeFits(ix, o)
    requires HeaderGeometry(ix.indexType).Ok?
    requires (ix.offsetBeforeChildren, ix.headerSize) == HeaderGeometry(ix.indexType).value
    ensures HeaderFits(ix.storage, o, ix.indexType)
    ensures NewHeader(o, ix.indexType, ix.storage).Some?
    ensures NewHeader(o, ix.indexType, ix.storage).value.nDescendants == Serving.NDescendants(ix, o)
    ensures NewHeader(o, ix.indexType, ix.storage).value.children == Serving.ChildrenIds(ix, o)
  {
    GeometryMatchesLayout(ix.indexType);
    FieldOffsets(HeaderLayout(ix.indexType).value);
  }
}
