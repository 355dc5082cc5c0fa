/**
 * The query engine: a best-first walk over the trees of a loaded index that
 * collects candidate items until a budget is met, followed by the exact
 * ranking of the collected items by distance to the query.
 *
 * The metric-specific helpers (margin of a split node, raw distance, its
 * normalisation) are parameters bundled in `Metric`.  A malformed index could
 * make the walk read outside the region or never end; `WellFormed` states what
 * the walk needs, with a ghost rank on node offsets that strictly decreases
 * from a split node to its children.
 */
module Serving {
  import opened Wrappers
  import opened Bytes
  import opened IndexTypes
  import opened Nodes
  import opened Kernels
  import opened PriorityQueues

  /** `f32::MAX`, the priority every root is seeded with. */
  const F32_MAX: real := 340282346638528859811704183484516925440.0

  /** The helpers the search calls: `get_margin`, `get_distance_no_norm`, `normalized_distance`. */
  datatype Metric = Metric(
    margin: (seq<F32>, seq<F32>, nat) -> real,
    distance: (seq<F32>, seq<F32>) -> real,
    normalize: real -> real)

  function MinNat(a: nat, b: nat): nat
  {
    if a <= b then a else b
  }

  /** `f32::min` on numbers. */
  function MinReal(a: real, b: real): (r: real)
    ensures r <= a && r <= b && (r == a || r == b)
  {
    if a <= b then a else b
  }

  // ---------------------------------------------------------------- layout

  /** The children ids fit in the header, and the header and the vector fit in a node. */
  predicate LayoutOk(ix: AnnoyIndex)
  {
    && ix.nodeSize > 0
    && ix.offsetBeforeChildren + 2 * INT32_SIZE <= ix.headerSize
    && ix.headerSize + FLOAT32_SIZE * ix.dimension <= ix.nodeSize
  }

  /** Where the node of an id starts (`id * node_size`). */
  function NodeOffset(ix: AnnoyIndex, id: nat): nat
  {
    id * ix.nodeSize
  }

  /** The id of the node at an offset (`offset / node_size`). */
  function NodeId(ix: AnnoyIndex, o: nat): nat
    requires ix.nodeSize > 0
  {
    o / ix.nodeSize
  }

  /** A whole node starts at offset o. */
  predicate NodeFits(ix: AnnoyIndex, o: nat)
  {
    o + ix.nodeSize <= |ix.storage|
  }

  /** The node of item id lies inside the region. */
  predicate ItemFits(ix: AnnoyIndex, id: nat)
  {
    NodeFits(ix, NodeOffset(ix, id))
  }

  /** `n_descendants` of the node at offset o. */
  function NDescendants(ix: AnnoyIndex, o: nat): int
    requires LayoutOk(ix) && NodeFits(ix, o)
  {
    ReadI32(ix.storage, o)
  }

  /** `get_node_slice_with_offset`: the dimension floats after the header. */
  function NodeVector(ix: AnnoyIndex, o: nat): (v: seq<F32>)
    requires LayoutOk(ix) && NodeFits(ix, o)
    ensures |v| == ix.dimension
    ensures forall j :: 0 <= j < |v| ==> v[j] == ReadF32(ix.storage, o + ix.headerSize + FLOAT32_SIZE * j)
  {
    ReadF32Slice(ix.storage, o + ix.headerSize, ix.dimension)
  }

  /** `get_children_id_slice`: the two ids at offset_before_children. */
  function ChildrenIds(ix: AnnoyIndex, o: nat): (c: seq<int>)
    requires LayoutOk(ix) && NodeFits(ix, o)
    ensures |c| == 2
    ensures c[0] == NthId(ix, o, 0) && c[1] == NthId(ix, o, 1)
  {
    ReadI32Slice(ix.storage, o + ix.offsetBeforeChildren, 2)
  }

  /** The signed id stored n slots after offset_before_children. */
  function NthId(ix: AnnoyIndex, o: nat, n: nat): int
    requires o + ix.offsetBeforeChildren + INT32_SIZE * n + 4 <= |ix.storage|
  {
    ReadI32(ix.storage, o + ix.offsetBeforeChildren + INT32_SIZE * n)
  }

  /** A bucket's n_descendants ids fit in the region. */
  predicate BucketFits(ix: AnnoyIndex, o: nat)
    requires LayoutOk(ix) && NodeFits(ix, o)
  {
    var n := NDescendants(ix, o);
    0 <= n && o + ix.offsetBeforeChildren + INT32_SIZE * n <= |ix.storage|
  }

  /** `get_descendant_id_slice(o, n_descendants)`, each id taken `as usize`. */
  function DescendantIds(ix: AnnoyIndex, o: nat): (ids: seq<nat>)
    requires LayoutOk(ix) && NodeFits(ix, o) && BucketFits(ix, o)
    ensures |ids| == NDescendants(ix, o)
    ensures forall j :: 0 <= j < |ids| ==> ids[j] == NthDescendantId(ix.storage, o, ix.offsetBeforeChildren, j)
  {
    var n := NDescendants(ix, o);
    var raw := ReadI32Slice(ix.storage, o + ix.offsetBeforeChildren, n);
    seq(n, j requires 0 <= j < n => ToUsize(raw[j]))
  }

  /** `get_item_vector`: the vector of item id. */
  function ItemVector(ix: AnnoyIndex, id: nat): (v: seq<F32>)
    requires LayoutOk(ix) && ItemFits(ix, id)
    ensures |v| == ix.dimension
    ensures forall j :: 0 <= j < |v| ==> v[j] == ReadF32(ix.storage, NodeOffset(ix, id) + ix.headerSize + FLOAT32_SIZE * j)
  {
    NodeVector(ix, NodeOffset(ix, id))
  }

  /** The vector is the payload after the header of the node that `Node::new_with_id` addresses. */
  lemma ItemVectorOfNode(ix: AnnoyIndex, id: nat)
    requires LayoutOk(ix) && ItemFits(ix, id) && ix.indexType != Hamming
    requires HeaderFits(ix.storage, NodeOffset(ix, id), ix.indexType)
    ensures var n := NewWithId(id, ix.nodeSize, ix.indexType, ix.storage).value;
      n.id == id && ItemVector(ix, id) == ReadF32Slice(ix.storage, n.offset + ix.headerSize, ix.dimension)
  {
  }

  // ---------------------------------------------------------------- node roles

  /** How the walk treats a popped node. */
  datatype Role = Leaf | Bucket | Split

  /** A single item below the degree, else a bucket of at most min_leaf_size ids, else a split node. */
  function RoleOf(ix: AnnoyIndex, o: nat): (r: Role)
    requires LayoutOk(ix) && NodeFits(ix, o)
    ensures r == Leaf <==> NDescendants(ix, o) == 1 && NodeId(ix, o) < ix.degree
    ensures r == Bucket <==> !(NDescendants(ix, o) == 1 && NodeId(ix, o) < ix.degree) && NDescendants(ix, o) <= ix.minLeafSize
    ensures r == Split <==> !(NDescendants(ix, o) == 1 && NodeId(ix, o) < ix.degree) && NDescendants(ix, o) > ix.minLeafSize
  {
    var n := NDescendants(ix, o);
    if n == 1 && NodeId(ix, o) < ix.degree then Leaf
    else if n <= ix.minLeafSize then Bucket
    else Split
  }

  /** The node can be handled without reading outside the region. */
  predicate Readable(ix: AnnoyIndex, o: nat)
  {
    LayoutOk(ix) && NodeFits(ix, o) && (RoleOf(ix, o) == Bucket ==> BucketFits(ix, o))
  }

  /** The item ids a popped node contributes: its own id, its bucket, or none. */
  function NodeItems(ix: AnnoyIndex, o: nat): set<nat>
    requires Readable(ix, o)
  {
    match RoleOf(ix, o)
    case Leaf => {NodeId(ix, o)}
    case Bucket => set id | id in DescendantIds(ix, o)
    case Split => {}
  }

  /** The most items one node can contribute: 1 for a leaf, up to `min_leaf_size` for a bucket. */
  function ItemsPerNode(ix: AnnoyIndex): nat
  {
    if ix.minLeafSize > 1 then ix.minLeafSize else 1
  }

  /** A visit adds at most `ItemsPerNode` ids: a bucket holds `n_descendants <= min_leaf_size` of them. */
  lemma NodeItemsCard(ix: AnnoyIndex, o: nat)
    requires Readable(ix, o)
    ensures |NodeItems(ix, o)| <= ItemsPerNode(ix)
  {
    match RoleOf(ix, o)
    case Leaf =>
      assert NodeItems(ix, o) == {NodeId(ix, o)};
    case Bucket =>
      var ids := DescendantIds(ix, o);
      SeqSetCard(ids);
      assert NodeItems(ix, o) == Elements(ids);
      assert |ids| == NDescendants(ix, o) <= ix.minLeafSize;
    case Split =>
      assert NodeItems(ix, o) == {};
  }

  /** The set of the elements of a sequence. */
  function Elements(ids: seq<nat>): set<nat>
  {
    set id | id in ids
  }

  /** A sequence has at least as many elements as the set of its elements. */
  lemma {:induction false} SeqSetCard(ids: seq<nat>)
    ensures |Elements(ids)| <= |ids|
  {
    if ids != [] {
      var init, last := ids[..|ids| - 1], ids[|ids| - 1];
      SeqSetCard(init);
      assert Elements(ids) == Elements(init) + {last};
      if last in Elements(init) {
        assert Elements(ids) == Elements(init);
      }
    }
  }

  /**
   * What the walk needs of a node in S: it fits, a bucket's ids name items
   * inside the region, and a split node's children are nodes of S of
   * smaller rank.
   */
  ghost predicate NodeOk(ix: AnnoyIndex, S: set<nat>, rank: nat -> nat, o: nat)
    requires LayoutOk(ix)
  {
    && NodeFits(ix, o)
    && (RoleOf(ix, o) == Bucket ==>
          BucketFits(ix, o) && forall id :: id in DescendantIds(ix, o) ==> ItemFits(ix, id))
    && (RoleOf(ix, o) == Split ==>
          ChildOk(ix, S, rank, o, ChildrenIds(ix, o)[0]) && ChildOk(ix, S, rank, o, ChildrenIds(ix, o)[1]))
  }

  /** A child id of the split node at o names a node of S of smaller rank. */
  ghost predicate ChildOk(ix: AnnoyIndex, S: set<nat>, rank: nat -> nat, o: nat, c: int)
  {
    c >= 0 && NodeOffset(ix, c) in S && rank(NodeOffset(ix, c)) < rank(o)
  }

  /** S holds the roots and is closed under the walk. */
  ghost predicate WellFormed(ix: AnnoyIndex, S: set<nat>, rank: nat -> nat)
  {
    && LayoutOk(ix)
    && (forall r :: r in ix.roots ==> r in S)
    && (forall o {:trigger NodeOk(ix, S, rank, o)} :: o in S ==> NodeOk(ix, S, rank, o))
  }

  /**
   * The node at o is the node at p or lies below it, reached from p through
   * the children of split nodes of S.
   */
  ghost predicate Below(ix: AnnoyIndex, S: set<nat>, rank: nat -> nat, p: nat, o: nat)
    requires LayoutOk(ix)
    decreases rank(p)
  {
    && p in S && NodeOk(ix, S, rank, p)
    && (|| o == p
        || (&& RoleOf(ix, p) == Split
            && (|| Below(ix, S, rank, NodeOffset(ix, ChildrenIds(ix, p)[0]), o)
                || Below(ix, S, rank, NodeOffset(ix, ChildrenIds(ix, p)[1]), o))))
  }

  /** The node at o can be reached from a root. */
  ghost predicate Reachable(ix: AnnoyIndex, S: set<nat>, rank: nat -> nat, o: nat)
    requires LayoutOk(ix)
  {
    exists r :: r in ix.roots && Below(ix, S, rank, r, o)
  }

  /** Every item a node of S contributes has its node inside the region. */
  lemma ItemsFit(ix: AnnoyIndex, S: set<nat>, rank: nat -> nat, o: nat, id: nat)
    requires LayoutOk(ix) && NodeOk(ix, S, rank, o) && id in NodeItems(ix, o)
    ensures ItemFits(ix, id)
  {
    if RoleOf(ix, o) == Leaf {
      DivBounds(o, ix.nodeSize);
    }
  }

  /** Every item contributed by a node of S fits. */
  lemma AllItemsFit(ix: AnnoyIndex, S: set<nat>, rank: nat -> nat)
    requires LayoutOk(ix)
    ensures forall o, id :: NodeOk(ix, S, rank, o) && id in NodeItems(ix, o) ==> ItemFits(ix, id)
  {
    forall o, id | NodeOk(ix, S, rank, o) && id in NodeItems(ix, o)
      ensures ItemFits(ix, id)
    {
      ItemsFit(ix, S, rank, o, id);
    }
  }

  /** The items of the nodes reachable from a root: everything a walk without a budget collects. */
  ghost function ReachableItems(ix: AnnoyIndex, S: set<nat>, rank: nat -> nat): (items: set<nat>)
    requires WellFormed(ix, S, rank)
    ensures forall id :: id in items ==> ItemFits(ix, id)
  {
    AllItemsFit(ix, S, rank);
    set o, id | o in S && NodeOk(ix, S, rank, o) && Reachable(ix, S, rank, o) && id in NodeItems(ix, o) :: id
  }

  /** A child of a split node below r is below r too. */
  lemma {:induction false} ChildBelow(ix: AnnoyIndex, S: set<nat>, rank: nat -> nat, r: nat, p: nat, c: int)
    requires WellFormed(ix, S, rank) && Below(ix, S, rank, r, p)
    requires NodeOk(ix, S, rank, p) && RoleOf(ix, p) == Split
    requires c == ChildrenIds(ix, p)[0] || c == ChildrenIds(ix, p)[1]
    ensures c >= 0 && Below(ix, S, rank, r, NodeOffset(ix, c))
    decreases rank(r)
  {
    var o := NodeOffset(ix, c);
    assert NodeOk(ix, S, rank, o);
    assert Below(ix, S, rank, o, o);
    if p != r {
      var c0 := NodeOffset(ix, ChildrenIds(ix, r)[0]);
      if Below(ix, S, rank, c0, p) {
        ChildBelow(ix, S, rank, c0, p, c);
      } else {
        ChildBelow(ix, S, rank, NodeOffset(ix, ChildrenIds(ix, r)[1]), p, c);
      }
    }
  }

  // ---------------------------------------------------------------- budget

  /** `n_results.min(degree).max(1)`. */
  function ResultCapacity(nResults: nat, degree: nat): (c: nat)
    ensures c >= 1
    ensures c == 1 || (c <= nResults && c <= degree)
    ensures nResults >= 1 && degree >= 1 ==> c == MinNat(nResults, degree)
  {
    var m := MinNat(nResults, degree);
    if m >= 1 then m else 1
  }

  /** The number of distinct candidates to collect: search_k when positive, else capacity times the number of trees. */
  function SearchBudget(nResults: nat, searchK: int, degree: nat, nRoots: nat): (b: nat)
    ensures searchK > 0 ==> b == searchK
    ensures searchK <= 0 ==> b == ResultCapacity(nResults, degree) * nRoots
    ensures searchK <= 0 ==> nRoots <= b
    ensures searchK <= 0 && nResults >= 1 ==> b <= nResults * nRoots
    ensures b == 0 <==> searchK <= 0 && nRoots == 0
  {
    if searchK > 0 then searchK else ResultCapacity(nResults, degree) * nRoots
  }

  // ---------------------------------------------------------------- the walk

  /** The seeds: every root with priority f32::MAX. */
  function Seeds(roots: seq<nat>): (es: seq<(nat, Priority)>)
    ensures |es| == |roots|
    ensures forall i :: 0 <= i < |roots| ==> es[i] == (roots[i], Num(F32_MAX))
  {
    seq(|roots|, i requires 0 <= i < |roots| => (roots[i], Num(F32_MAX)))
  }

  /** A fresh queue holding every root once, each with priority f32::MAX. */
  method SeedRoots(roots: seq<nat>, capacity: nat) returns (pq: PriorityQueue<nat>)
    ensures fresh(pq) && pq.Valid() && MaxAtRoot(pq.priorities)
    ensures multiset(pq.Entries()) == multiset(Seeds(roots))
  {
    pq := new PriorityQueue<nat>.WithCapacity(capacity);
    for i := 0 to |roots|
      invariant pq.Valid() && MaxAtRoot(pq.priorities)
      invariant multiset(pq.Entries()) == multiset(Seeds(roots[..i]))
    {
      pq.Push(roots[i], Num(F32_MAX));
      assert Seeds(roots[..i + 1]) == Seeds(roots[..i]) + [(roots[i], Num(F32_MAX))];
    }
    assert roots[..|roots|] == roots;
  }

  ghost function Pow3(k: nat): (r: nat)
    ensures r >= 1
  {
    if k == 0 then 1 else 3 * Pow3(k - 1)
  }

  lemma {:induction false} Pow3Grows(a: nat, b: nat)
    requires a < b
    ensures 3 * Pow3(a) <= Pow3(b)
    decreases b
  {
    if a < b - 1 {
      Pow3Grows(a, b - 1);
    }
  }

  /** Some element of a non-empty bag. */
  ghost function Pick(m: multiset<(nat, Priority)>): (e: (nat, Priority))
    requires m != multiset{}
    ensures e in m
  {
    var e :| e in m; e
  }

  /** The termination measure: each queued node weighs three to the power of its rank. */
  ghost function Weight(m: multiset<(nat, Priority)>, rank: nat -> nat): nat
    decreases |m|
  {
    if m == multiset{} then 0
    else Pow3(rank(Pick(m).0)) + Weight(m - multiset{Pick(m)}, rank)
  }

  lemma {:induction false} WeightRemove(m: multiset<(nat, Priority)>, e: (nat, Priority), rank: nat -> nat)
    requires e in m
    ensures Weight(m, rank) == Pow3(rank(e.0)) + Weight(m - multiset{e}, rank)
    decreases |m|
  {
    var x := Pick(m);
    if x != e {
      WeightRemove(m - multiset{x}, e, rank);
      WeightRemove(m - multiset{e}, x, rank);
      assert m - multiset{x} - multiset{e} == m - multiset{e} - multiset{x};
    }
  }

  lemma WeightAdd(m: multiset<(nat, Priority)>, e: (nat, Priority), rank: nat -> nat)
    ensures Weight(m + multiset{e}, rank) == Pow3(rank(e.0)) + Weight(m, rank)
  {
    WeightRemove(m + multiset{e}, e, rank);
    assert m + multiset{e} - multiset{e} == m;
  }

  /** Weight drops when a node is replaced by two nodes of smaller rank. */
  lemma WeightSplit(rest: multiset<(nat, Priority)>, r: (nat, Priority), l: (nat, Priority), rank: nat -> nat, top: nat)
    requires rank(r.0) < top && rank(l.0) < top
    ensures Weight(rest + multiset{r} + multiset{l}, rank) < Pow3(top) + Weight(rest, rank)
  {
    WeightAdd(rest, r, rank);
    WeightAdd(rest + multiset{r}, l, rank);
    Pow3Grows(rank(r.0), top);
    Pow3Grows(rank(l.0), top);
  }

  /** The `for &child_id in children_id_slice` loop: insert every id of a bucket. */
  method InsertAll(candidates: set<nat>, ids: seq<nat>) returns (result: set<nat>)
    ensures result == candidates + set id | id in ids
  {
    result := candidates;
    for j := 0 to |ids|
      invariant result == candidates + set id | id in ids[..j]
    {
      assert ids[..j + 1] == ids[..j] + [ids[j]];
      result := result + {ids[j]};
    }
    assert ids[..|ids|] == ids;
  }

  /**
   * What visiting the node at o queues: nothing for a leaf or a bucket; for a
   * split node the right child with `min(bound, margin)` and then the left
   * child with `min(bound, -margin)`, so never a bound above the node's own.
   */
  function ChildPushes(ix: AnnoyIndex, metric: Metric, query: seq<F32>, o: nat, bound: real): (es: seq<(nat, Priority)>)
    requires LayoutOk(ix) && NodeFits(ix, o)
    requires RoleOf(ix, o) == Split ==> ChildrenIds(ix, o)[0] >= 0 && ChildrenIds(ix, o)[1] >= 0
    ensures RoleOf(ix, o) != Split ==> es == []
    ensures RoleOf(ix, o) == Split ==>
      && |es| == 2
      && es[0].0 == NodeOffset(ix, ChildrenIds(ix, o)[1])
      && es[1].0 == NodeOffset(ix, ChildrenIds(ix, o)[0])
    ensures forall e :: e in es ==> e.1.Num? && e.1.value <= bound
  {
    if RoleOf(ix, o) == Split then
      var margin := metric.margin(NodeVector(ix, o), query, o);
      var children := ChildrenIds(ix, o);
      [(NodeOffset(ix, children[1]), Num(MinReal(bound, margin))),
       (NodeOffset(ix, children[0]), Num(MinReal(bound, -margin)))]
    else
      []
  }

  /**
   * A split node: push the right child with `min(bound, margin)` and then the
   * left child with `min(bound, -margin)`, children addressed as id * node_size.
   */
  method PushChildren(pq: PriorityQueue<nat>, ix: AnnoyIndex, metric: Metric, query: seq<F32>,
                      offset: nat, bound: real)
    returns (right: (nat, Priority), left: (nat, Priority))
    requires pq.Valid() && MaxAtRoot(pq.priorities)
    requires LayoutOk(ix) && NodeFits(ix, offset)
    requires ChildrenIds(ix, offset)[0] >= 0 && ChildrenIds(ix, offset)[1] >= 0
    modifies pq
    ensures pq.Valid() && MaxAtRoot(pq.priorities)
    ensures multiset(pq.Entries()) == old(multiset(pq.Entries())) + multiset{right} + multiset{left}
    ensures var margin := metric.margin(NodeVector(ix, offset), query, offset);
      && right == (NodeOffset(ix, ChildrenIds(ix, offset)[1]), Num(MinReal(bound, margin)))
      && left == (NodeOffset(ix, ChildrenIds(ix, offset)[0]), Num(MinReal(bound, -margin)))
    ensures RoleOf(ix, offset) == Split ==> [right, left] == ChildPushes(ix, metric, query, offset, bound)
  {
    var v := NodeVector(ix, offset);
    var margin := metric.margin(v, query, offset);
    var children := ChildrenIds(ix, offset);
    right := (NodeOffset(ix, children[1]), Num(MinReal(bound, margin)));
    pq.Push(right.0, right.1);
    left := (NodeOffset(ix, children[0]), Num(MinReal(bound, -margin)));
    pq.Push(left.0, left.1);
  }

  /** A node Visit can handle: readable, and a split node's children ids are not negative. */
  predicate Visitable(ix: AnnoyIndex, o: nat)
  {
    && Readable(ix, o)
    && (RoleOf(ix, o) == Split ==> ChildrenIds(ix, o)[0] >= 0 && ChildrenIds(ix, o)[1] >= 0)
  }

  /**
   * One popped node, handled in exactly one of three ways: a leaf inserts its
   * own id, a bucket inserts its ids, a split node pushes both children with
   * the bounds `ChildPushes` gives.
   */
  method Visit(pq: PriorityQueue<nat>, ix: AnnoyIndex, metric: Metric, query: seq<F32>,
               offset: nat, bound: real, candidates: set<nat>)
    returns (result: set<nat>, ghost pushed: seq<(nat, Priority)>)
    requires pq.Valid() && MaxAtRoot(pq.priorities)
    requires Visitable(ix, offset)
    modifies pq
    ensures pq.Valid() && MaxAtRoot(pq.priorities)
    ensures result == candidates + NodeItems(ix, offset)
    ensures multiset(pq.Entries()) == old(multiset(pq.Entries())) + multiset(pushed)
    ensures pushed == ChildPushes(ix, metric, query, offset, bound)
  {
    var nodeId := NodeId(ix, offset);
    var nDescendants := NDescendants(ix, offset);
    pushed := [];
    if nDescendants == 1 && nodeId < ix.degree {
      assert RoleOf(ix, offset) == Leaf;
      result := candidates + {nodeId};
    } else if nDescendants <= ix.minLeafSize {
      assert RoleOf(ix, offset) == Bucket;
      result := InsertAll(candidates, DescendantIds(ix, offset));
    } else {
      assert RoleOf(ix, offset) == Split;
      var right, left := PushChildren(pq, ix, metric, query, offset, bound);
      pushed := [right, left];
      assert multiset(pushed) == multiset{right} + multiset{left};
      result := candidates;
    }
  }

  /** Every queued node is in S and its bound is a number no larger than bound. */
  ghost predicate FrontierBounded(es: seq<(nat, Priority)>, S: set<nat>, bound: real)
  {
    forall e :: e in es ==> e.0 in S && e.1.Num? && e.1.value <= bound
  }

  /**
   * What a visit pushes keeps the frontier bounded, and weighs less than the
   * popped node: its children have smaller rank.
   */
  lemma PushedBounded(ix: AnnoyIndex, S: set<nat>, rank: nat -> nat, offset: nat, bound: real,
                      rest: seq<(nat, Priority)>, pushed: seq<(nat, Priority)>, after: seq<(nat, Priority)>)
    requires LayoutOk(ix) && NodeOk(ix, S, rank, offset) && FrontierBounded(rest, S, bound)
    requires multiset(after) == multiset(rest) + multiset(pushed)
    requires forall e :: e in pushed ==> e.1.Num? && e.1.value <= bound
    requires RoleOf(ix, offset) != Split ==> pushed == []
    requires RoleOf(ix, offset) == Split ==>
      && |pushed| == 2
      && pushed[0].0 == NodeOffset(ix, ChildrenIds(ix, offset)[1])
      && pushed[1].0 == NodeOffset(ix, ChildrenIds(ix, offset)[0])
    ensures FrontierBounded(after, S, bound)
    ensures Weight(multiset(after), rank) < Pow3(rank(offset)) + Weight(multiset(rest), rank)
  {
    if RoleOf(ix, offset) == Split {
      assert multiset(pushed) == multiset{pushed[0]} + multiset{pushed[1]} by {
        assert pushed == [pushed[0]] + [pushed[1]];
      }
      WeightSplit(multiset(rest), pushed[0], pushed[1], rank, rank(offset));
      FrontierGrows(rest, after, S, bound, pushed[0], pushed[1]);
    } else {
      assert multiset(after) == multiset(rest);
      forall e | e in after
        ensures e.0 in S && e.1.Num? && e.1.value <= bound
      {
        assert e in multiset(rest);
      }
    }
  }

  /** Queuing two more nodes of S with bounds no larger than bound keeps the frontier bounded. */
  lemma FrontierGrows(before: seq<(nat, Priority)>, after: seq<(nat, Priority)>, S: set<nat>, bound: real,
                      right: (nat, Priority), left: (nat, Priority))
    requires FrontierBounded(before, S, bound)
    requires multiset(after) == multiset(before) + multiset{right} + multiset{left}
    requires right.0 in S && right.1.Num? && right.1.value <= bound
    requires left.0 in S && left.1.Num? && left.1.value <= bound
    ensures FrontierBounded(after, S, bound)
  {
    forall e | e in after
      ensures e.0 in S && e.1.Num? && e.1.value <= bound
    {
      assert e in multiset(after);
      if e != right && e != left {
        assert e in multiset(before);
      }
    }
  }

  /** The seeded queue holds every root with bound f32::MAX, so it is bounded and non-empty when there are roots. */
  lemma SeedsBounded(roots: seq<nat>, S: set<nat>, es: seq<(nat, Priority)>)
    requires (forall r :: r in roots ==> r in S) && multiset(es) == multiset(Seeds(roots))
    ensures FrontierBounded(es, S, F32_MAX)
    ensures |roots| > 0 ==> |es| > 0
  {
    forall e | e in es
      ensures e.0 in S && e.1.Num? && e.1.value <= F32_MAX
    {
      assert e in multiset(Seeds(roots));
    }
    assert |roots| > 0 ==> Seeds(roots)[0] in multiset(es);
  }

  /** Every reachable node has been visited or lies below a queued node. */
  ghost predicate Covered(ix: AnnoyIndex, S: set<nat>, rank: nat -> nat, visited: set<nat>, es: seq<(nat, Priority)>)
    requires LayoutOk(ix)
  {
    forall o :: Reachable(ix, S, rank, o) ==> o in visited || exists e :: e in es && Below(ix, S, rank, e.0, o)
  }

  /**
   * The walk after visiting the nodes in visited with es still queued: the
   * candidates are reachable items, every visited node has contributed its
   * items, every queued node is reachable, and nothing reachable is missed.
   */
  ghost predicate Walked(ix: AnnoyIndex, S: set<nat>, rank: nat -> nat, visited: set<nat>, candidates: set<nat>,
                         es: seq<(nat, Priority)>)
    requires WellFormed(ix, S, rank)
  {
    && candidates <= ReachableItems(ix, S, rank)
    && (forall e :: e in es ==> Reachable(ix, S, rank, e.0))
    && (forall o :: o in visited ==> Readable(ix, o) && NodeItems(ix, o) <= candidates)
    && Covered(ix, S, rank, visited, es)
  }

  /** The seeded queue starts a walk: every root is queued. */
  lemma WalkStart(ix: AnnoyIndex, S: set<nat>, rank: nat -> nat, es: seq<(nat, Priority)>)
    requires WellFormed(ix, S, rank) && multiset(es) == multiset(Seeds(ix.roots))
    ensures Walked(ix, S, rank, {}, {}, es)
  {
    forall e | e in es
      ensures Reachable(ix, S, rank, e.0)
    {
      assert e in multiset(Seeds(ix.roots));
      var i :| 0 <= i < |ix.roots| && Seeds(ix.roots)[i] == e;
      assert NodeOk(ix, S, rank, e.0);
      assert Below(ix, S, rank, e.0, e.0);
    }
    forall o | Reachable(ix, S, rank, o)
      ensures exists e :: e in es && Below(ix, S, rank, e.0, o)
    {
      var r :| r in ix.roots && Below(ix, S, rank, r, o);
      var i :| 0 <= i < |ix.roots| && ix.roots[i] == r;
      assert Seeds(ix.roots)[i] in multiset(es);
    }
  }

  /** The nodes queued after a visit are reachable. */
  lemma QueuedReachable(ix: AnnoyIndex, S: set<nat>, rank: nat -> nat, queued: seq<(nat, Priority)>,
                        popped: (nat, Priority), rest: seq<(nat, Priority)>, pushed: seq<(nat, Priority)>,
                        after: seq<(nat, Priority)>)
    requires WellFormed(ix, S, rank) && NodeOk(ix, S, rank, popped.0) && Reachable(ix, S, rank, popped.0)
    requires forall e :: e in queued ==> Reachable(ix, S, rank, e.0)
    requires multiset(rest) == multiset(queued) - multiset{popped}
    requires multiset(after) == multiset(rest) + multiset(pushed)
    requires RoleOf(ix, popped.0) != Split ==> pushed == []
    requires RoleOf(ix, popped.0) == Split ==>
      && |pushed| == 2
      && pushed[0].0 == NodeOffset(ix, ChildrenIds(ix, popped.0)[1])
      && pushed[1].0 == NodeOffset(ix, ChildrenIds(ix, popped.0)[0])
    ensures forall e :: e in after ==> Reachable(ix, S, rank, e.0)
  {
    PushedReachable(ix, S, rank, popped.0, pushed);
    forall e | e in after
      ensures Reachable(ix, S, rank, e.0)
    {
      assert e in multiset(after);
      if e in multiset(rest) {
        assert e in multiset(queued);
      } else {
        assert e in pushed;
      }
    }
  }

  /** The children a visit pushes are reachable. */
  lemma PushedReachable(ix: AnnoyIndex, S: set<nat>, rank: nat -> nat, p: nat, pushed: seq<(nat, Priority)>)
    requires WellFormed(ix, S, rank) && NodeOk(ix, S, rank, p) && Reachable(ix, S, rank, p)
    requires RoleOf(ix, p) != Split ==> pushed == []
    requires RoleOf(ix, p) == Split ==>
      && |pushed| == 2
      && pushed[0].0 == NodeOffset(ix, ChildrenIds(ix, p)[1])
      && pushed[1].0 == NodeOffset(ix, ChildrenIds(ix, p)[0])
    ensures forall e :: e in pushed ==> Reachable(ix, S, rank, e.0)
  {
    forall e | e in pushed
      ensures Reachable(ix, S, rank, e.0)
    {
      if e == pushed[0] {
        ChildReachable(ix, S, rank, p, ChildrenIds(ix, p)[1]);
      } else {
        assert e == pushed[1];
        ChildReachable(ix, S, rank, p, ChildrenIds(ix, p)[0]);
      }
    }
  }

  /** A child of a reachable split node is reachable. */
  lemma ChildReachable(ix: AnnoyIndex, S: set<nat>, rank: nat -> nat, p: nat, c: int)
    requires WellFormed(ix, S, rank) && NodeOk(ix, S, rank, p) && Reachable(ix, S, rank, p)
    requires RoleOf(ix, p) == Split && (c == ChildrenIds(ix, p)[0] || c == ChildrenIds(ix, p)[1])
    ensures c >= 0 && Reachable(ix, S, rank, NodeOffset(ix, c))
  {
    var r :| r in ix.roots && Below(ix, S, rank, r, p);
    ChildBelow(ix, S, rank, r, p, c);
  }

  /** After a visit every reachable node is still visited or below a queued node. */
  lemma CoverStep(ix: AnnoyIndex, S: set<nat>, rank: nat -> nat, visited: set<nat>, queued: seq<(nat, Priority)>,
                  popped: (nat, Priority), rest: seq<(nat, Priority)>, pushed: seq<(nat, Priority)>,
                  after: seq<(nat, Priority)>)
    requires WellFormed(ix, S, rank) && NodeOk(ix, S, rank, popped.0)
    requires Covered(ix, S, rank, visited, queued)
    requires multiset(rest) == multiset(queued) - multiset{popped}
    requires multiset(after) == multiset(rest) + multiset(pushed)
    requires RoleOf(ix, popped.0) == Split ==>
      && |pushed| == 2
      && pushed[0].0 == NodeOffset(ix, ChildrenIds(ix, popped.0)[1])
      && pushed[1].0 == NodeOffset(ix, ChildrenIds(ix, popped.0)[0])
    ensures Covered(ix, S, rank, visited + {popped.0}, after)
  {
    var p := popped.0;
    forall o | Reachable(ix, S, rank, o) && o !in visited && o != p
      ensures exists e :: e in after && Below(ix, S, rank, e.0, o)
    {
      var e :| e in queued && Below(ix, S, rank, e.0, o);
      assert e in multiset(queued);
      if e in multiset(rest) {
        assert e in multiset(after);
      } else {
        assert e == popped;
        if Below(ix, S, rank, NodeOffset(ix, ChildrenIds(ix, p)[1]), o) {
          assert pushed[0] in multiset(after);
        } else {
          assert pushed[1] in multiset(after);
        }
      }
    }
  }

  /** Visiting a queued node keeps the walk invariant. */
  lemma WalkStep(ix: AnnoyIndex, S: set<nat>, rank: nat -> nat, visited: set<nat>, candidates: set<nat>,
                 queued: seq<(nat, Priority)>, popped: (nat, Priority), rest: seq<(nat, Priority)>,
                 pushed: seq<(nat, Priority)>, after: seq<(nat, Priority)>, result: set<nat>)
    requires WellFormed(ix, S, rank) && Walked(ix, S, rank, visited, candidates, queued)
    requires popped in queued && NodeOk(ix, S, rank, popped.0)
    requires multiset(rest) == multiset(queued) - multiset{popped}
    requires multiset(after) == multiset(rest) + multiset(pushed)
    requires result == candidates + NodeItems(ix, popped.0)
    requires RoleOf(ix, popped.0) != Split ==> pushed == []
    requires RoleOf(ix, popped.0) == Split ==>
      && |pushed| == 2
      && pushed[0].0 == NodeOffset(ix, ChildrenIds(ix, popped.0)[1])
      && pushed[1].0 == NodeOffset(ix, ChildrenIds(ix, popped.0)[0])
    ensures Walked(ix, S, rank, visited + {popped.0}, result, after)
  {
    var p := popped.0;
    assert Reachable(ix, S, rank, p);
    forall id | id in NodeItems(ix, p)
      ensures id in ReachableItems(ix, S, rank)
    {
      ItemReachable(ix, S, rank, p, id);
    }
    QueuedReachable(ix, S, rank, queued, popped, rest, pushed, after);
    CoverStep(ix, S, rank, visited, queued, popped, rest, pushed, after);
  }

  /** An item of a reachable node is a reachable item. */
  lemma ItemReachable(ix: AnnoyIndex, S: set<nat>, rank: nat -> nat, o: nat, id: nat)
    requires WellFormed(ix, S, rank) && NodeOk(ix, S, rank, o) && Reachable(ix, S, rank, o)
    requires id in NodeItems(ix, o)
    ensures id in ReachableItems(ix, S, rank)
  {
    var r :| r in ix.roots && Below(ix, S, rank, r, o);
    BelowInS(ix, S, rank, r, o);
  }

  /** Only nodes of S lie below a node. */
  lemma {:induction false} BelowInS(ix: AnnoyIndex, S: set<nat>, rank: nat -> nat, p: nat, o: nat)
    requires LayoutOk(ix) && Below(ix, S, rank, p, o)
    ensures o in S
    decreases rank(p)
  {
    if o != p {
      var c0 := NodeOffset(ix, ChildrenIds(ix, p)[0]);
      if Below(ix, S, rank, c0, o) {
        BelowInS(ix, S, rank, c0, o);
      } else {
        BelowInS(ix, S, rank, NodeOffset(ix, ChildrenIds(ix, p)[1]), o);
      }
    }
  }

  /** A walk that emptied the queue has collected every reachable item. */
  lemma WalkDone(ix: AnnoyIndex, S: set<nat>, rank: nat -> nat, visited: set<nat>, candidates: set<nat>)
    requires WellFormed(ix, S, rank) && Walked(ix, S, rank, visited, candidates, [])
    ensures candidates == ReachableItems(ix, S, rank)
  {
    forall id | id in ReachableItems(ix, S, rank)
      ensures id in candidates
    {
      var o :| o in S && NodeOk(ix, S, rank, o) && Reachable(ix, S, rank, o) && id in NodeItems(ix, o);
      assert o in visited;
    }
  }

  /**
   * One iteration of the walk: pop the queued node with the largest bound
   * and visit it.  The walk is best-first: the popped bound is at least every
   * queued bound and at most the previous one, and it bounds everything
   * queued afterwards, so the next pop cannot exceed it.  The walk invariant
   * is kept with the popped node visited, and the queued weight drops.
   */
  method Step(pq: PriorityQueue<nat>, ix: AnnoyIndex, metric: Metric, query: seq<F32>, candidates: set<nat>,
              ghost last: real, ghost visited: set<nat>, ghost S: set<nat>, ghost rank: nat -> nat)
    returns (result: set<nat>, ghost popped: (nat, Priority), ghost bound: real, ghost done: set<nat>,
             ghost pushed: seq<(nat, Priority)>)
    requires pq.Valid() && MaxAtRoot(pq.priorities) && pq.Len() > 0
    requires WellFormed(ix, S, rank) && Walked(ix, S, rank, visited, candidates, pq.Entries())
    requires FrontierBounded(pq.Entries(), S, last)
    modifies pq
    ensures pq.Valid() && MaxAtRoot(pq.priorities)
    ensures popped == old(pq.Entries())[0] && popped.1.Num? && bound == popped.1.value
    ensures forall e :: e in old(pq.Entries()) ==> e.1.Num? && e.1.value <= bound
    ensures bound <= last && FrontierBounded(pq.Entries(), S, bound)
    ensures done == visited + {popped.0}
    ensures NodeOk(ix, S, rank, popped.0)
    ensures result == candidates + NodeItems(ix, popped.0)
    ensures pushed == ChildPushes(ix, metric, query, popped.0, bound)
    ensures multiset(pq.Entries()) == old(multiset(pq.Entries())) - multiset{popped} + multiset(pushed)
    ensures Walked(ix, S, rank, done, result, pq.Entries())
    ensures Weight(multiset(pq.Entries()), rank) < Weight(old(multiset(pq.Entries())), rank)
  {
    ghost var queued := pq.Entries();
    ghost var before := multiset(queued);
    var top := pq.Pop();
    assert top.Some?;
    var (offset, priority) := top.value;
    popped, bound := top.value, priority.value;
    assert top.value in queued;
    WeightRemove(before, top.value, rank);
    ghost var rest := pq.Entries();
    forall e | e in rest
      ensures e.0 in S && e.1.Num? && e.1.value <= bound
    {
      assert e in multiset(rest);
      assert e in queued;
    }
    assert NodeOk(ix, S, rank, offset);
    result, pushed := Visit(pq, ix, metric, query, offset, priority.value, candidates);
    PushedBounded(ix, S, rank, offset, bound, rest, pushed, pq.Entries());
    WalkStep(ix, S, rank, visited, candidates, queued, top.value, rest, pushed, pq.Entries(), result);
    done := visited + {offset};
  }

  /**
   * The `while pq.len() > 0 && nearest_neighbors.len() < search_k` loop.
   * The candidates are reachable items; the loop leaves only when the queue
   * is empty or the budget is reached, and an empty queue means every
   * reachable item has been collected.  The budget limits the walk: nothing
   * is collected under a zero budget, and the last visit, made below the
   * budget, adds at most one node's items.
   */
  method Traverse(ix: AnnoyIndex, metric: Metric, query: seq<F32>, capacity: nat, budget: nat,
                  ghost S: set<nat>, ghost rank: nat -> nat)
    returns (candidates: set<nat>)
    requires WellFormed(ix, S, rank)
    ensures candidates <= ReachableItems(ix, S, rank)
    ensures |candidates| >= budget || candidates == ReachableItems(ix, S, rank)
    ensures budget == 0 ==> candidates == {}
    ensures |candidates| < budget + ItemsPerNode(ix)
  {
    var pq := SeedRoots(ix.roots, capacity);
    SeedsBounded(ix.roots, S, pq.Entries());
    WalkStart(ix, S, rank, pq.Entries());
    candidates := {};
    ghost var last := F32_MAX;
    ghost var visited: set<nat> := {};
    while pq.Len() > 0 && |candidates| < budget
      invariant pq.Valid() && MaxAtRoot(pq.priorities)
      invariant FrontierBounded(pq.Entries(), S, last)
      invariant Walked(ix, S, rank, visited, candidates, pq.Entries())
      invariant budget == 0 ==> candidates == {}
      invariant |candidates| < budget + ItemsPerNode(ix)
      decreases Weight(multiset(pq.Entries()), rank)
    {
      ghost var before, popped, pushed := candidates, (0, Num(0.0)), [];
      candidates, popped, last, visited, pushed := Step(pq, ix, metric, query, candidates, last, visited, S, rank);
      NodeItemsCard(ix, popped.0);
      assert |candidates| <= |before| + |NodeItems(ix, popped.0)|;
    }
    if |candidates| < budget {
      WalkDone(ix, S, rank, visited, candidates);
    }
  }

  // ---------------------------------------------------------------- ranking

  /** The collected ids whose node holds a single item: only those are ranked. */
  ghost function Kept(ix: AnnoyIndex, candidates: set<nat>): set<nat>
    requires LayoutOk(ix) && forall id :: id in candidates ==> ItemFits(ix, id)
  {
    set id | id in candidates && ItemFits(ix, id) && NDescendants(ix, NodeOffset(ix, id)) == 1
  }

  /** Looking at one more candidate adds it to the kept ids exactly when its node holds a single item. */
  lemma KeptAdd(ix: AnnoyIndex, done: set<nat>, id: nat)
    requires LayoutOk(ix) && ItemFits(ix, id) && forall c :: c in done ==> ItemFits(ix, c)
    ensures Kept(ix, done + {id}) == Kept(ix, done) + (if NDescendants(ix, NodeOffset(ix, id)) == 1 then {id} else {})
  {
  }

  /** `get_distance_no_norm` between the item's vector and the query. */
  function RawDistance(ix: AnnoyIndex, metric: Metric, query: seq<F32>, id: nat): real
    requires LayoutOk(ix) && ItemFits(ix, id)
  {
    metric.distance(ItemVector(ix, id), query)
  }

  function IdsOf(scored: seq<(nat, real)>): set<nat>
  {
    set p | p in scored :: p.0
  }

  ghost predicate DistinctIds(scored: seq<(nat, real)>)
  {
    forall i, j :: 0 <= i < j < |scored| ==> scored[i].0 != scored[j].0
  }

  ghost predicate SortedByDistance(scored: seq<(nat, real)>)
  {
    forall i, j :: 0 <= i < j < |scored| ==> scored[i].1 <= scored[j].1
  }

  /**
   * scored pairs every kept id of done, once each, with its raw distance,
   * and nothing else.
   */
  ghost predicate ScoredOver(ix: AnnoyIndex, metric: Metric, query: seq<F32>, scored: seq<(nat, real)>, done: set<nat>)
    requires LayoutOk(ix) && forall id :: id in done ==> ItemFits(ix, id)
  {
    && IdsOf(scored) == Kept(ix, done)
    && DistinctIds(scored)
    && forall p :: p in scored ==> p.0 in done && p.1 == RawDistance(ix, metric, query, p.0)
  }

  /**
   * The loop over the candidate set (in no particular order) that skips
   * every id whose node does not hold exactly one item and pairs the others
   * with their raw distance.
   */
  method KeepLeaves(ix: AnnoyIndex, metric: Metric, query: seq<F32>, candidates: set<nat>)
    returns (scored: seq<(nat, real)>)
    requires LayoutOk(ix) && forall id :: id in candidates ==> ItemFits(ix, id)
    ensures IdsOf(scored) == Kept(ix, candidates)
    ensures DistinctIds(scored)
    ensures forall p :: p in scored ==> p.0 in candidates && p.1 == RawDistance(ix, metric, query, p.0)
  {
    scored := [];
    var rest := candidates;
    ghost var done: set<nat> := {};
    while rest != {}
      invariant done + rest == candidates && done !! rest
      invariant ScoredOver(ix, metric, query, scored, done)
      decreases |rest|
    {
      var id :| id in rest;
      rest := rest - {id};
      if NDescendants(ix, NodeOffset(ix, id)) != 1 {
        KeepSkip(ix, metric, query, scored, done, id);
        done := done + {id};
        continue;
      }
      var entry := (id, metric.distance(NodeVector(ix, NodeOffset(ix, id)), query));
      KeepStep(ix, metric, query, scored, done, entry);
      scored := scored + [entry];
      done := done + {id};
    }
  }

  /** Skipping an id whose node does not hold a single item leaves the scored pairs as they are. */
  lemma KeepSkip(ix: AnnoyIndex, metric: Metric, query: seq<F32>, scored: seq<(nat, real)>, done: set<nat>, id: nat)
    requires LayoutOk(ix) && ItemFits(ix, id) && forall c :: c in done ==> ItemFits(ix, c)
    requires ScoredOver(ix, metric, query, scored, done) && NDescendants(ix, NodeOffset(ix, id)) != 1
    ensures ScoredOver(ix, metric, query, scored, done + {id})
  {
    KeptAdd(ix, done, id);
  }

  /** Appending a newly scored id keeps the ids distinct and each paired with its distance. */
  lemma KeepStep(ix: AnnoyIndex, metric: Metric, query: seq<F32>, scored: seq<(nat, real)>, done: set<nat>,
                 entry: (nat, real))
    requires LayoutOk(ix) && ItemFits(ix, entry.0) && entry.0 !in done && forall c :: c in done ==> ItemFits(ix, c)
    requires entry.1 == RawDistance(ix, metric, query, entry.0) && NDescendants(ix, NodeOffset(ix, entry.0)) == 1
    requires ScoredOver(ix, metric, query, scored, done)
    ensures ScoredOver(ix, metric, query, scored + [entry], done + {entry.0})
  {
    KeptAdd(ix, done, entry.0);
    var t := scored + [entry];
    assert IdsOf(t) == IdsOf(scored) + {entry.0} by {
      assert entry in t;
      forall p | p in scored
        ensures p in t
      {
      }
    }
    forall i, j | 0 <= i < j < |t|
      ensures t[i].0 != t[j].0
    {
      if j == |scored| {
        assert t[i] in scored;
      }
    }
  }

  /** Insertion after every entry that is not farther, keeping the order sorted. */
  function InsertByDistance(sorted: seq<(nat, real)>, x: (nat, real)): (r: seq<(nat, real)>)
    requires SortedByDistance(sorted)
    ensures SortedByDistance(r)
    ensures multiset(r) == multiset(sorted) + multiset{x}
  {
    if sorted == [] || x.1 < sorted[0].1 then
      FirstIsLeast(sorted);
      ConsSorted(x, sorted);
      [x] + sorted
    else
      var tail := InsertByDistance(sorted[1..], x);
      TailBound(sorted, x, tail);
      ConsSorted(sorted[0], tail);
      assert sorted == [sorted[0]] + sorted[1..];
      [sorted[0]] + tail
  }

  lemma FirstIsLeast(sorted: seq<(nat, real)>)
    requires SortedByDistance(sorted)
    ensures forall p :: p in sorted ==> sorted[0].1 <= p.1
  {
  }

  lemma ConsSorted(h: (nat, real), t: seq<(nat, real)>)
    requires SortedByDistance(t) && forall p :: p in t ==> h.1 <= p.1
    ensures SortedByDistance([h] + t)
  {
    var s := [h] + t;
    forall i, j | 0 <= i < j < |s|
      ensures s[i].1 <= s[j].1
    {
      if i > 0 {
        assert s[i] == t[i - 1] && s[j] == t[j - 1];
      } else {
        assert s[j] == t[j - 1] && t[j - 1] in t;
      }
    }
  }

  lemma TailBound(sorted: seq<(nat, real)>, x: (nat, real), tail: seq<(nat, real)>)
    requires SortedByDistance(sorted) && sorted != [] && sorted[0].1 <= x.1
    requires multiset(tail) == multiset(sorted[1..]) + multiset{x}
    ensures forall p :: p in tail ==> sorted[0].1 <= p.1
  {
    forall p | p in tail
      ensures sorted[0].1 <= p.1
    {
      assert p in multiset(tail);
      if p != x {
        assert p in sorted[1..];
      }
    }
  }

  /** `sort_by` on the raw distance: a non-decreasing rearrangement of the pairs. */
  method SortByDistance(scored: seq<(nat, real)>) returns (sorted: seq<(nat, real)>)
    ensures SortedByDistance(sorted)
    ensures multiset(sorted) == multiset(scored)
  {
    sorted := [];
    for i := 0 to |scored|
      invariant SortedByDistance(sorted)
      invariant multiset(sorted) == multiset(scored[..i])
    {
      assert scored[..i + 1] == scored[..i] + [scored[i]];
      sorted := InsertByDistance(sorted, scored[i]);
    }
    assert scored[..|scored|] == scored;
  }

  /** The result ids, in order. */
  function ResultIds(results: seq<SearchResultItem>): set<nat>
  {
    set r | r in results :: r.id
  }

  /**
   * What a query returns for a candidate set: the nearest kept candidates by
   * raw distance, in non-decreasing order, each once, as many as requested
   * when there are enough, with the normalised distance or 0.
   */
  ghost predicate NearestOf(ix: AnnoyIndex, metric: Metric, query: seq<F32>, nResults: nat, includeDistance: bool,
                            candidates: set<nat>, results: seq<SearchResultItem>)
    requires LayoutOk(ix) && forall id :: id in candidates ==> ItemFits(ix, id)
  {
    var kept := Kept(ix, candidates);
    && |results| == MinNat(nResults, |kept|)
    && (forall i :: 0 <= i < |results| ==> results[i].id in kept)
    && (forall i, j :: 0 <= i < j < |results| ==> results[i].id != results[j].id)
    && (forall i, j :: 0 <= i < j < |results| ==>
          RawDistance(ix, metric, query, results[i].id) <= RawDistance(ix, metric, query, results[j].id))
    && (forall i, id :: 0 <= i < |results| && id in kept && id !in ResultIds(results) ==>
          RawDistance(ix, metric, query, results[i].id) <= RawDistance(ix, metric, query, id))
    && (forall i :: 0 <= i < |results| ==>
          results[i].distance == if includeDistance then metric.normalize(RawDistance(ix, metric, query, results[i].id)) else 0.0)
  }

  /** Appending one more pair keeps the count of ids at most the count of pairs, and equal for distinct ids. */
  lemma {:induction false} IdsCard(s: seq<(nat, real)>)
    ensures |IdsOf(s)| <= |s|
    ensures DistinctIds(s) ==> |IdsOf(s)| == |s|
    decreases |s|
  {
    if |s| > 0 {
      var t := s[..|s| - 1];
      IdsCard(t);
      assert s == t + [s[|s| - 1]];
      assert IdsOf(s) == IdsOf(t) + {s[|s| - 1].0};
      if DistinctIds(s) {
        assert DistinctIds(t);
        assert s[|s| - 1].0 !in IdsOf(t);
      }
    }
  }

  /** Pairs with as many ids as entries have distinct ids. */
  lemma DistinctByCount(s: seq<(nat, real)>)
    requires |IdsOf(s)| == |s|
    ensures DistinctIds(s)
  {
    if !DistinctIds(s) {
      var i, j :| 0 <= i < j < |s| && s[i].0 == s[j].0;
      var t := s[..j] + s[j + 1..];
      assert IdsOf(t) == IdsOf(s) by {
        forall p | p in s
          ensures p.0 in IdsOf(t)
        {
          var k :| 0 <= k < |s| && s[k] == p;
          if k < j {
            assert t[k] == p;
          } else if k > j {
            assert t[k - 1] == p;
          } else {
            assert t[i] == s[i];
          }
        }
      }
      IdsCard(t);
    }
  }

  /** A rearrangement of distinct pairs keeps their ids, keeps them distinct, and keeps every pair. */
  lemma Rearranged(a: seq<(nat, real)>, b: seq<(nat, real)>)
    requires multiset(a) == multiset(b) && DistinctIds(a)
    ensures IdsOf(b) == IdsOf(a) && DistinctIds(b) && |b| == |IdsOf(a)|
    ensures forall p :: p in b ==> p in a
  {
    forall p | p in b
      ensures p in a
    {
      assert p in multiset(b);
    }
    forall p | p in a
      ensures p in b
    {
      assert p in multiset(a);
    }
    assert |a| == |multiset(a)| == |multiset(b)| == |b|;
    assert IdsOf(b) == IdsOf(a);
    IdsCard(a);
    DistinctByCount(b);
  }

  /** One result row: the id and, when asked for, the normalised distance. */
  function ResultOf(metric: Metric, includeDistance: bool, p: (nat, real)): (r: SearchResultItem)
    ensures r.id == p.0
    ensures r.distance == if includeDistance then metric.normalize(p.1) else 0.0
  {
    SearchResultItem(p.0, if includeDistance then metric.normalize(p.1) else 0.0)
  }

  /** The final loop: one row for each of the first count pairs, in order. */
  method TakeFirst(metric: Metric, includeDistance: bool, sorted: seq<(nat, real)>, count: nat)
    returns (results: seq<SearchResultItem>)
    requires count <= |sorted|
    ensures |results| == count
    ensures forall i :: 0 <= i < count ==> results[i] == ResultOf(metric, includeDistance, sorted[i])
  {
    results := [];
    for i := 0 to count
      invariant |results| == i
      invariant forall k :: 0 <= k < i ==> results[k] == ResultOf(metric, includeDistance, sorted[k])
    {
      results := results + [ResultOf(metric, includeDistance, sorted[i])];
    }
  }

  /** The first rows of a sorted rearrangement of the kept, scored candidates are the nearest ones. */
  lemma NearestPrefix(ix: AnnoyIndex, metric: Metric, query: seq<F32>, nResults: nat, includeDistance: bool,
                      candidates: set<nat>, sorted: seq<(nat, real)>, results: seq<SearchResultItem>)
    requires LayoutOk(ix) && forall id :: id in candidates ==> ItemFits(ix, id)
    requires IdsOf(sorted) == Kept(ix, candidates) && DistinctIds(sorted) && SortedByDistance(sorted)
    requires forall p :: p in sorted ==> p.0 in candidates && p.1 == RawDistance(ix, metric, query, p.0)
    requires |results| == MinNat(nResults, |sorted|)
    requires forall i :: 0 <= i < |results| ==> results[i] == ResultOf(metric, includeDistance, sorted[i])
    ensures NearestOf(ix, metric, query, nResults, includeDistance, candidates, results)
  {
    var kept := Kept(ix, candidates);
    IdsCard(sorted);
    forall i | 0 <= i < |results|
      ensures results[i].id in kept && results[i].id == sorted[i].0
      ensures RawDistance(ix, metric, query, results[i].id) == sorted[i].1
    {
      assert sorted[i] in sorted;
    }
    forall i, id | 0 <= i < |results| && id in kept && id !in ResultIds(results)
      ensures RawDistance(ix, metric, query, results[i].id) <= RawDistance(ix, metric, query, id)
    {
      var p :| p in sorted && p.0 == id;
      var k :| 0 <= k < |sorted| && sorted[k] == p;
    }
  }

  lemma SubsetCard(a: set<nat>, b: set<nat>)
    requires a <= b
    ensures |a| <= |b|
  {
    assert b == a + (b - a);
  }

  /**
   * `get_nearest`: walk the trees until the candidate budget is reached or
   * the queue is empty, keep the candidates whose node holds a single item,
   * sort them by raw distance and return the first n_results.  The candidate
   * set is returned as a ghost so that the result can be stated against it.
   */
  method GetNearest(ix: AnnoyIndex, metric: Metric, query: seq<F32>, nResults: nat, searchK: int,
                    includeDistance: bool, ghost S: set<nat>, ghost rank: nat -> nat)
    returns (results: seq<SearchResultItem>, ghost candidates: set<nat>)
    requires WellFormed(ix, S, rank)
    ensures candidates <= ReachableItems(ix, S, rank)
    ensures |candidates| >= SearchBudget(nResults, searchK, ix.degree, |ix.roots|) ||
            candidates == ReachableItems(ix, S, rank)
    ensures SearchBudget(nResults, searchK, ix.degree, |ix.roots|) == 0 ==> candidates == {}
    ensures |candidates| < SearchBudget(nResults, searchK, ix.degree, |ix.roots|) + ItemsPerNode(ix)
    ensures NearestOf(ix, metric, query, nResults, includeDistance, candidates, results)
    ensures SearchBudget(nResults, searchK, ix.degree, |ix.roots|) > |ReachableItems(ix, S, rank)| ==>
      NearestOf(ix, metric, query, nResults, includeDistance, ReachableItems(ix, S, rank), results)
  {
    var capacity := ResultCapacity(nResults, ix.degree);
    var budget := SearchBudget(nResults, searchK, ix.degree, |ix.roots|);
    var found := Traverse(ix, metric, query, capacity, budget, S, rank);
    candidates := found;
    var scored := KeepLeaves(ix, metric, query, found);
    var sorted := SortByDistance(scored);
    Rearranged(scored, sorted);
    results := TakeFirst(metric, includeDistance, sorted, MinNat(nResults, |sorted|));
    NearestPrefix(ix, metric, query, nResults, includeDistance, candidates, sorted, results);
    if budget > |ReachableItems(ix, S, rank)| {
      SubsetCard(found, ReachableItems(ix, S, rank));
    }
  }

  /** `get_item_vector` followed by `get_nearest` with that vector as the query. */
  method GetNearestToItem(ix: AnnoyIndex, metric: Metric, item: nat, nResults: nat, searchK: int,
                          includeDistance: bool, ghost S: set<nat>, ghost rank: nat -> nat)
    returns (results: seq<SearchResultItem>, ghost candidates: set<nat>)
    requires WellFormed(ix, S, rank) && ItemFits(ix, item)
    ensures candidates <= ReachableItems(ix, S, rank)
    ensures |candidates| >= SearchBudget(nResults, searchK, ix.degree, |ix.roots|) ||
            candidates == ReachableItems(ix, S, rank)
    ensures SearchBudget(nResults, searchK, ix.degree, |ix.roots|) == 0 ==> candidates == {}
    ensures |candidates| < SearchBudget(nResults, searchK, ix.degree, |ix.roots|) + ItemsPerNode(ix)
    ensures NearestOf(ix, metric, ItemVector(ix, item), nResults, includeDistance, candidates, results)
    ensures SearchBudget(nResults, searchK, ix.degree, |ix.roots|) > |ReachableItems(ix, S, rank)| ==>
      NearestOf(ix, metric, ItemVector(ix, item), nResults, includeDistance, ReachableItems(ix, S, rank), results)
  {
    var query := ItemVector(ix, item);
    results, candidates := GetNearest(ix, metric, query, nResults, searchK, includeDistance, S, rank);
  }
}
