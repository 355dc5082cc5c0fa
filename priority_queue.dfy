/**
 * The binary max-heap that orders the nodes still to be visited during a
 * search.  Keys and priorities live in two parallel vectors, as in the
 * source.  Priorities are only partially ordered: `Priority` is an f32 seen
 * as a real number or NaN, and a NaN compares to nothing.
 *
 * The queue keeps a weaker shape than a full heap: `MaxAtRoot` (every
 * priority is a number and the root is a largest one) is what `Push` and
 * `Pop` preserve, and it is exactly what makes every `Pop` return a maximum.
 */
module PriorityQueues {
  import opened Wrappers

  datatype Priority = Num(value: real) | NaN

  datatype Ordering = Less | Equal | Greater

  /** `PartialOrd::partial_cmp` on f32 priorities. */
  function PartialCmp(a: Priority, b: Priority): (r: Option<Ordering>)
    ensures r.None? <==> a.NaN? || b.NaN?
    ensures r == Some(Less) <==> a.Num? && b.Num? && a.value < b.value
    ensures r == Some(Equal) <==> a.Num? && b.Num? && a.value == b.value
    ensures r == Some(Greater) <==> a.Num? && b.Num? && a.value > b.value
  {
    if a.NaN? || b.NaN? then None
    else if a.value < b.value then Some(Less)
    else if a.value == b.value then Some(Equal)
    else Some(Greater)
  }

  ghost predicate AllNum(ps: seq<Priority>)
  {
    forall i :: 0 <= i < |ps| ==> ps[i].Num?
  }

  /** Every priority is a number and none exceeds the one at the root. */
  ghost predicate MaxAtRoot(ps: seq<Priority>)
  {
    AllNum(ps) && forall i :: 0 <= i < |ps| ==> ps[i].value <= ps[0].value
  }

  /** As `MaxAtRoot`, except possibly for the priority at position k. */
  ghost predicate MaxAtRootExcept(ps: seq<Priority>, k: nat)
  {
    AllNum(ps) && forall i :: 0 <= i < |ps| && i != k ==> ps[i].value <= ps[0].value
  }

  function Zip<K>(ks: seq<K>, ps: seq<Priority>): (es: seq<(K, Priority)>)
    requires |ks| == |ps|
    ensures |es| == |ks|
    ensures forall i :: 0 <= i < |es| ==> es[i] == (ks[i], ps[i])
  {
    seq(|ks|, i requires 0 <= i < |ks| => (ks[i], ps[i]))
  }

  function Swap<T>(s: seq<T>, i: nat, j: nat): (t: seq<T>)
    requires i < |s| && j < |s|
    ensures |t| == |s| && t[i] == s[j] && t[j] == s[i]
  {
    s[i := s[j]][j := s[i]]
  }

  lemma SwapMultiset<T>(s: seq<T>, i: nat, j: nat)
    requires i < |s| && j < |s|
    ensures multiset(Swap(s, i, j)) == multiset(s)
  {
    var t := s[i := s[j]];
    assert multiset(t) == multiset(s) - multiset{s[i]} + multiset{s[j]};
    assert multiset(t[j := s[i]]) == multiset(t) - multiset{t[j]} + multiset{s[i]};
  }

  lemma ZipSwap<K>(ks: seq<K>, ps: seq<Priority>, i: nat, j: nat)
    requires |ks| == |ps| && i < |ks| && j < |ks|
    ensures multiset(Zip(Swap(ks, i, j), Swap(ps, i, j))) == multiset(Zip(ks, ps))
  {
    assert Zip(Swap(ks, i, j), Swap(ps, i, j)) == Swap(Zip(ks, ps), i, j);
    SwapMultiset(Zip(ks, ps), i, j);
  }

  lemma ZipAppend<K>(ks: seq<K>, ps: seq<Priority>, k: K, p: Priority)
    requires |ks| == |ps|
    ensures Zip(ks + [k], ps + [p]) == Zip(ks, ps) + [(k, p)]
  {
  }

  /** Dropping the last pair removes exactly that pair from the bag. */
  lemma ZipDropLast<K>(ks: seq<K>, ps: seq<Priority>, n: nat)
    requires |ks| == |ps| == n + 1
    ensures multiset(Zip(ks[..n], ps[..n])) == multiset(Zip(ks, ps)) - multiset{(ks[n], ps[n])}
  {
    assert Zip(ks, ps) == Zip(ks[..n], ps[..n]) + [(ks[n], ps[n])];
  }

  /** `Vec::swap_remove(0)`: the last element takes the place of the first. */
  function SwapRemoveFirst<T>(s: seq<T>): (t: seq<T>)
    requires |s| > 0
    ensures |t| == |s| - 1
    ensures multiset(t) == multiset(s) - multiset{s[0]}
    ensures |s| > 1 ==> t[0] == s[|s| - 1]
    ensures forall i :: 0 < i < |t| ==> t[i] == s[i]
  {
    if |s| == 1 then []
    else
      assert s == [s[0]] + s[1..|s| - 1] + [s[|s| - 1]];
      [s[|s| - 1]] + s[1..|s| - 1]
  }

  lemma ZipSwapRemoveFirst<K>(ks: seq<K>, ps: seq<Priority>)
    requires |ks| == |ps| > 0
    ensures Zip(SwapRemoveFirst(ks), SwapRemoveFirst(ps)) == SwapRemoveFirst(Zip(ks, ps))
  {
    var es := Zip(SwapRemoveFirst(ks), SwapRemoveFirst(ps));
    var fs := SwapRemoveFirst(Zip(ks, ps));
    assert |es| == |fs|;
    forall i | 0 <= i < |es|
      ensures es[i] == fs[i]
    {
    }
  }

  /** Removing the root keeps every priority a number, and a root of at most one element is the maximum. */
  lemma SwapRemoveFirstAllNum(ps: seq<Priority>)
    requires |ps| > 0
    ensures AllNum(ps) ==> AllNum(SwapRemoveFirst(ps))
    ensures MaxAtRoot(ps) && |ps| <= 2 ==> MaxAtRoot(SwapRemoveFirst(ps))
  {
    var t := SwapRemoveFirst(ps);
    if AllNum(ps) {
      forall i | 0 <= i < |t|
        ensures t[i].Num?
      {
      }
    }
  }

  /** Position d lies in the subtree rooted at position q of the implicit binary tree. */
  ghost predicate Descends(d: nat, q: nat)
    decreases d
  {
    d == q || (d > 0 && Descends((d - 1) / 2, q))
  }

  lemma {:induction false} DescendsAtLeast(d: nat, q: nat)
    requires Descends(d, q)
    ensures d >= q
    ensures d != q ==> d >= 2 * q + 1
    decreases d
  {
    if d != q {
      var p := (d - 1) / 2;
      if p != q {
        DescendsAtLeast(p, q);
      }
    }
  }

  /** A proper descendant of p descends from one of p's two children. */
  lemma {:induction false} DescendsSplit(d: nat, p: nat)
    requires Descends(d, p) && d != p
    ensures Descends(d, 2 * p + 1) || Descends(d, 2 * p + 2)
    decreases d
  {
    var parent := (d - 1) / 2;
    if parent != p {
      DescendsSplit(parent, p);
    }
  }

  /** The priority at q is a largest one in q's subtree. */
  ghost predicate TopsSubtree(ps: seq<Priority>, q: nat)
    requires AllNum(ps) && q < |ps|
  {
    forall d :: q <= d < |ps| && Descends(d, q) ==> ps[d].value <= ps[q].value
  }

  /**
   * The positions from k on whose parent lies before k (the roots of the
   * subtrees already processed by a bottom-up pass stopped at k) each top
   * their subtree.
   */
  ghost predicate Frontier(ps: seq<Priority>, k: nat)
    requires AllNum(ps)
  {
    forall q :: k <= q < |ps| && (q == 0 || (q - 1) / 2 < k) ==> TopsSubtree(ps, q)
  }

  /** Before the pass every position from |ps| / 2 on is a leaf. */
  lemma LeavesFrontier(ps: seq<Priority>)
    requires AllNum(ps)
    ensures Frontier(ps, |ps| / 2)
  {
    forall q | |ps| / 2 <= q < |ps| && (q == 0 || (q - 1) / 2 < |ps| / 2)
      ensures TopsSubtree(ps, q)
    {
      forall d | q <= d < |ps| && Descends(d, q)
        ensures ps[d].value <= ps[q].value
      {
        DescendsAtLeast(d, q);
      }
    }
  }

  /** After the whole pass the root tops the tree. */
  lemma FrontierRoot(ps: seq<Priority>)
    requires AllNum(ps) && Frontier(ps, 0)
    ensures MaxAtRoot(ps)
  {
    if |ps| > 0 {
      assert TopsSubtree(ps, 0);
      forall i | 0 <= i < |ps|
        ensures ps[i].value <= ps[0].value
      {
        RootAncestor(i);
      }
    }
  }

  lemma {:induction false} RootAncestor(d: nat)
    ensures Descends(d, 0)
    decreases d
  {
    if d > 0 {
      RootAncestor((d - 1) / 2);
    }
  }

  /**
   * One step of the bottom-up pass: moving the largest of p and its
   * children up to p extends the frontier from p + 1 to p.
   */
  lemma FrontierStep(ps: seq<Priority>, p: nat, l: nat)
    requires AllNum(ps) && 2 * p + 1 < |ps| && Frontier(ps, p + 1)
    requires l == p || l == 2 * p + 1 || (l == 2 * p + 2 && l < |ps|)
    requires ps[p].value <= ps[l].value && ps[2 * p + 1].value <= ps[l].value
    requires 2 * p + 2 < |ps| ==> ps[2 * p + 2].value <= ps[l].value
    ensures AllNum(Swap(ps, p, l)) && Frontier(Swap(ps, p, l), p)
  {
    var c := Swap(ps, p, l);
    forall q | p <= q < |c| && (q == 0 || (q - 1) / 2 < p)
      ensures TopsSubtree(c, q)
    {
      if q == p {
        forall d | q <= d < |c| && Descends(d, q)
          ensures c[d].value <= c[q].value
        {
          if d != p {
            DescendsSplit(d, p);
            var child := if Descends(d, 2 * p + 1) then 2 * p + 1 else 2 * p + 2;
            DescendsAtLeast(d, child);
            assert (child - 1) / 2 == p;
            assert TopsSubtree(ps, child);
            assert ps[d].value <= ps[child].value;
            if d != l {
              assert c[d] == ps[d];
            }
          }
        }
      } else {
        assert TopsSubtree(ps, q);
        forall d | q <= d < |c| && Descends(d, q)
          ensures c[d].value <= c[q].value
        {
          assert d != p;
        }
      }
    }
  }

  class PriorityQueue<K> {
    var keys: seq<K>
    var priorities: seq<Priority>

    ghost predicate Valid()
      reads this
    {
      |keys| == |priorities|
    }

    /** The (key, priority) pairs, position by position. */
    ghost function Entries(): (es: seq<(K, Priority)>)
      reads this
      requires Valid()
      ensures |es| == |keys|
    {
      Zip(keys, priorities)
    }

    /** `with_capacity`: an empty queue; the capacity is only a preallocation hint. */
    constructor WithCapacity(capacity: nat)
      ensures Valid() && keys == [] && priorities == []
    {
      keys := [];
      priorities := [];
    }

    /** `len`: the number of queued entries. */
    function Len(): (n: nat)
      reads this
      requires Valid()
      ensures n == |Entries()|
    {
      |keys|
    }

    /**
     * `push`: append the pair and sift it up.  When the sift meets an
     * incomparable priority it gives up, and the last pair is dropped.
     */
    method Push(key: K, priority: Priority)
      requires Valid()
      modifies this
      ensures Valid()
      ensures |keys| == old(|keys|) + 1 || |keys| == old(|keys|)
      ensures |keys| == old(|keys|) + 1 ==>
                multiset(Entries()) == old(multiset(Entries())) + multiset{(key, priority)}
      ensures multiset(Entries()) <= old(multiset(Entries())) + multiset{(key, priority)}
      ensures old(|keys|) == 0 ==> keys == [key] && priorities == [priority]
      ensures old(|keys|) > 0 && priority.NaN? ==> keys == old(keys) && priorities == old(priorities)
      ensures old(AllNum(priorities)) && priority.Num? ==> |keys| == old(|keys|) + 1
      ensures old(MaxAtRoot(priorities)) && priority.Num? ==> MaxAtRoot(priorities)
    {
      Append(key, priority);
      var pos := |priorities| - 1;
      if pos > 0 {
        var ok := MaxHeapUpAdjust(pos);
        if !ok {
          DropLast();
        }
      }
    }

    /** `Vec::push` on both vectors. */
    method Append(key: K, priority: Priority)
      requires Valid()
      modifies this
      ensures Valid() && keys == old(keys) + [key] && priorities == old(priorities) + [priority]
      ensures multiset(Entries()) == old(multiset(Entries())) + multiset{(key, priority)}
      ensures old(AllNum(priorities)) && priority.Num? ==> AllNum(priorities)
      ensures old(MaxAtRoot(priorities)) && priority.Num? ==> MaxAtRootExcept(priorities, |priorities| - 1)
    {
      ZipAppend(keys, priorities, key, priority);
      keys := keys + [key];
      priorities := priorities + [priority];
    }

    /** `Vec::pop` on both vectors, dropping the last pair. */
    method DropLast()
      requires Valid() && |keys| > 0
      modifies this
      ensures Valid() && keys == old(keys[..|keys| - 1]) && priorities == old(priorities[..|priorities| - 1])
      ensures multiset(Entries()) <= old(multiset(Entries()))
    {
      ZipDropLast(keys, priorities, |keys| - 1);
      keys := keys[..|keys| - 1];
      priorities := priorities[..|priorities| - 1];
    }

    /**
     * `max_heap_up_adjust`: swap the entry at `position` with its parent
     * while the parent is smaller; `false` when a comparison is undefined.
     */
    method MaxHeapUpAdjust(position: nat) returns (ok: bool)
      requires Valid() && position < |priorities|
      modifies this
      ensures Valid() && |keys| == old(|keys|)
      ensures multiset(Entries()) == old(multiset(Entries()))
      ensures position > 0 && old(priorities[position]).NaN? ==>
                !ok && keys == old(keys) && priorities == old(priorities)
      ensures old(AllNum(priorities)) ==> ok && AllNum(priorities)
      ensures old(MaxAtRootExcept(priorities, position)) ==> ok && MaxAtRoot(priorities)
    {
      ghost var numeric := AllNum(priorities);
      ghost var good := MaxAtRootExcept(priorities, position);
      ghost var entries := multiset(Entries());
      ghost var x := priorities[position];
      ghost var top := priorities[0];
      var pos := position;
      while pos > 0
        invariant Valid() && |keys| == old(|keys|) && pos < |priorities|
        invariant multiset(Zip(keys, priorities)) == entries
        invariant pos == position ==> keys == old(keys) && priorities == old(priorities)
        invariant x.NaN? ==> pos == position
        invariant numeric ==> AllNum(priorities)
        invariant good ==> AllNum(priorities) && priorities[pos] == x
        invariant good ==> forall i :: 0 <= i < |priorities| && i != pos ==> priorities[i].value <= top.value
        invariant good && pos > 0 ==> priorities[0] == top
        invariant good && pos == 0 ==> top.value <= x.value
      {
        var parent := (pos - 1) / 2;
        var order := PartialCmp(priorities[parent], priorities[pos]);
        if order.None? {
          return false;
        } else if order.value == Less {
          SwapEntries(pos, parent);
          pos := parent;
        } else {
          if good {
            assert x.value <= priorities[parent].value <= top.value;
            forall i | 0 <= i < |priorities|
              ensures priorities[i].value <= priorities[0].value
            {
            }
          }
          return true;
        }
      }
      if good {
        forall i | 0 <= i < |priorities|
          ensures priorities[i].value <= priorities[0].value
        {
        }
      }
      return true;
    }

    /** `slice::swap` on both vectors. */
    method SwapEntries(i: nat, j: nat)
      requires Valid() && i < |keys| && j < |keys|
      modifies this
      ensures Valid() && keys == Swap(old(keys), i, j) && priorities == Swap(old(priorities), i, j)
      ensures multiset(Entries()) == old(multiset(Entries()))
    {
      ZipSwap(keys, priorities, i, j);
      priorities := Swap(priorities, i, j);
      keys := Swap(keys, i, j);
    }

    /**
     * `max_heap_build`: one bottom-up pass that moves the largest of each
     * inner position and its children up to it; it stops at the first
     * undefined comparison.
     */
    method MaxHeapBuild()
      requires Valid()
      modifies this
      ensures Valid() && |keys| == old(|keys|)
      ensures multiset(Entries()) == old(multiset(Entries()))
      ensures old(AllNum(priorities)) ==> MaxAtRoot(priorities)
    {
      ghost var good := AllNum(priorities);
      ghost var entries := multiset(Entries());
      var len: nat := |keys|;
      if good {
        LeavesFrontier(priorities);
      }
      var pos: nat := len / 2;
      while pos > 0
        invariant Valid() && |keys| == len && pos <= len / 2
        invariant multiset(Zip(keys, priorities)) == entries
        invariant good ==> AllNum(priorities) && Frontier(priorities, pos)
      {
        pos := pos - 1;
        var lc := pos * 2 + 1;
        var rc := pos * 2 + 2;
        var largest := pos;
        if lc < len {
          var order := PartialCmp(priorities[largest], priorities[lc]);
          if order.None? {
            return;
          } else if order.value == Less {
            largest := lc;
          }
        }
        if rc < len {
          var order := PartialCmp(priorities[largest], priorities[rc]);
          if order.None? {
            return;
          } else if order.value == Less {
            largest := rc;
          }
        }
        ghost var ps := priorities;
        if good {
          FrontierStep(ps, pos, largest);
        }
        if largest != pos {
          SwapEntries(pos, largest);
        } else {
          assert Swap(priorities, pos, pos) == priorities;
        }
      }
      if good {
        FrontierRoot(priorities);
      }
    }

    /**
     * `pop`: take the root pair, move the last pair into its place, and
     * rebuild when more than one pair remains.
     */
    method Pop() returns (r: Option<(K, Priority)>)
      requires Valid()
      modifies this
      ensures Valid()
      ensures r.None? <==> old(|keys|) == 0
      ensures r.None? ==> keys == old(keys) && priorities == old(priorities)
      ensures r.Some? ==> r.value == old(Entries())[0] && |keys| == old(|keys|) - 1
      ensures r.Some? ==> multiset(Entries()) == old(multiset(Entries())) - multiset{r.value}
      ensures old(MaxAtRoot(priorities)) ==> MaxAtRoot(priorities)
      ensures old(MaxAtRoot(priorities)) && r.Some? ==>
                forall e :: e in old(Entries()) ==> e.1.value <= r.value.1.value
    {
      var len := |keys|;
      if len > 0 {
        ghost var before := Entries();
        ghost var wasMax := MaxAtRoot(priorities);
        r := Some((keys[0], priorities[0]));
        if wasMax {
          forall e | e in before
            ensures e.1.value <= r.value.1.value
          {
            var i :| 0 <= i < len && before[i] == e;
          }
        }
        ZipSwapRemoveFirst(keys, priorities);
        SwapRemoveFirstAllNum(priorities);
        keys := SwapRemoveFirst(keys);
        priorities := SwapRemoveFirst(priorities);
        if len > 2 {
          MaxHeapBuild();
        }
      } else {
        r := None;
      }
    }
  }
}
