/**
 * The queue's own unit tests: push every value with itself as priority, pop
 * until empty, and compare with the values sorted in descending order.
 */
module PriorityQueueTests {
  import opened Wrappers
  import opened PriorityQueues

  ghost predicate NonIncreasing(s: seq<real>)
  {
    forall i, j :: 0 <= i < j < |s| ==> s[j] <= s[i]
  }

  /** Each value paired with itself as priority, as the tests push them. */
  ghost function Pairs(s: seq<real>): (es: seq<(real, Priority)>)
    ensures |es| == |s|
    ensures forall i :: 0 <= i < |s| ==> es[i] == (s[i], Num(s[i]))
  {
    seq(|s|, i requires 0 <= i < |s| => (s[i], Num(s[i])))
  }

  lemma PairsAppend(s: seq<real>, x: real)
    ensures Pairs(s + [x]) == Pairs(s) + [(x, Num(x))]
  {
    assert Pairs(s + [x]) == Pairs(s) + [(x, Num(x))];
  }

  lemma {:induction false} PairsCount(s: seq<real>, x: real)
    ensures multiset(Pairs(s))[(x, Num(x))] == multiset(s)[x]
    decreases |s|
  {
    if |s| > 0 {
      var t := s[..|s| - 1];
      PairsCount(t, x);
      assert s == t + [s[|s| - 1]];
      PairsAppend(t, s[|s| - 1]);
    }
  }

  /** Pairing values with themselves loses nothing: equal bags of pairs mean equal bags of values. */
  lemma PairsBag(a: seq<real>, b: seq<real>)
    requires multiset(Pairs(a)) == multiset(Pairs(b))
    ensures multiset(a) == multiset(b)
  {
    forall x: real
      ensures multiset(a)[x] == multiset(b)[x]
    {
      PairsCount(a, x);
      PairsCount(b, x);
    }
  }

  ghost predicate SelfPaired(es: seq<(real, Priority)>)
  {
    forall e :: e in es ==> e.1 == Num(e.0)
  }

  lemma PairedBag(es: seq<(real, Priority)>, s: seq<real>)
    requires multiset(es) == multiset(Pairs(s))
    ensures SelfPaired(es)
  {
    forall e | e in es
      ensures e.1 == Num(e.0)
    {
      assert e in multiset(Pairs(s));
      var i :| 0 <= i < |s| && Pairs(s)[i] == e;
    }
  }

  /** What one pop of the largest pair does to the drained prefix and to what remains. */
  lemma PopStep(before: seq<(real, Priority)>, after: seq<(real, Priority)>, r: (real, Priority), sorted: seq<real>)
    requires |before| > 0 && r == before[0] && SelfPaired(before) && NonIncreasing(sorted)
    requires multiset(after) == multiset(before) - multiset{r}
    requires forall e :: e in before ==> e.1.value <= r.1.value
    requires |sorted| > 0 ==> forall e :: e in before ==> e.1.value <= sorted[|sorted| - 1]
    ensures SelfPaired(after) && NonIncreasing(sorted + [r.0])
    ensures forall e :: e in after ==> e.1.value <= r.0
    ensures multiset(Pairs(sorted + [r.0])) + multiset(after) == multiset(Pairs(sorted)) + multiset(before)
  {
    PairsAppend(sorted, r.0);
    assert r in before;
    assert r == (r.0, Num(r.0));
    assert multiset(Pairs(sorted + [r.0])) == multiset(Pairs(sorted)) + multiset{r};
    assert r in multiset(before);
    assert multiset(after) + multiset{r} == multiset(before);
    forall e | e in after
      ensures e in before
    {
      assert e in multiset(after);
    }
    assert r in before;
  }

  /** A bag has only one non-increasing arrangement. */
  lemma {:induction false} SortedUnique(a: seq<real>, b: seq<real>)
    requires NonIncreasing(a) && NonIncreasing(b) && multiset(a) == multiset(b)
    ensures a == b
    decreases |a|
  {
    assert |a| == |multiset(a)| == |multiset(b)| == |b|;
    if |a| > 0 {
      HeadsAgree(a, b);
      TailBag(a, b);
      TailNonIncreasing(a);
      TailNonIncreasing(b);
      SortedUnique(a[1..], b[1..]);
      assert a == [a[0]] + a[1..] && b == [b[0]] + b[1..];
    }
  }

  lemma HeadsAgree(a: seq<real>, b: seq<real>)
    requires NonIncreasing(a) && NonIncreasing(b) && multiset(a) == multiset(b) && |a| > 0 && |b| > 0
    ensures a[0] == b[0]
  {
    assert a[0] in multiset(b) && b[0] in multiset(a);
    var j :| 0 <= j < |b| && b[j] == a[0];
    var k :| 0 <= k < |a| && a[k] == b[0];
    assert b[j] <= b[0];
    assert a[k] <= a[0];
  }

  lemma TailBag(a: seq<real>, b: seq<real>)
    requires multiset(a) == multiset(b) && |a| > 0 && |b| > 0 && a[0] == b[0]
    ensures multiset(a[1..]) == multiset(b[1..])
  {
    assert a == [a[0]] + a[1..] && b == [b[0]] + b[1..];
    assert multiset(a[1..]) == multiset(a) - multiset{a[0]};
    assert multiset(b[1..]) == multiset(b) - multiset{b[0]};
  }

  lemma TailNonIncreasing(a: seq<real>)
    requires NonIncreasing(a) && |a| > 0
    ensures NonIncreasing(a[1..])
  {
    var t := a[1..];
    forall i, j | 0 <= i < j < |t|
      ensures t[j] <= t[i]
    {
      assert t[i] == a[i + 1] && t[j] == a[j + 1];
    }
  }

  /**
   * The push half of `test_qp_inner`: a fresh queue holding one entry per
   * value, with the value as its own priority; `pq.len()` is the number of
   * values pushed.
   */
  method PushAll(s: seq<real>) returns (pq: PriorityQueue<real>)
    ensures fresh(pq) && pq.Valid() && MaxAtRoot(pq.priorities)
    ensures pq.Len() == |s|
    ensures multiset(pq.Entries()) == multiset(Pairs(s))
  {
    pq := new PriorityQueue<real>.WithCapacity(|s|);
    for i := 0 to |s|
      invariant fresh(pq) && pq.Valid() && MaxAtRoot(pq.priorities) && |pq.keys| == i
      invariant multiset(pq.Entries()) == multiset(Pairs(s[..i]))
    {
      pq.Push(s[i], Num(s[i]));
      assert s[..i + 1] == s[..i] + [s[i]];
      PairsAppend(s[..i], s[i]);
    }
    assert s[..|s|] == s;
  }

  /**
   * `test_qp_inner`: push each value with itself as priority, then pop
   * until the queue is empty; the keys come out as the values sorted in
   * descending order.
   */
  method SortDescending(s: seq<real>) returns (sorted: seq<real>)
    ensures NonIncreasing(sorted)
    ensures multiset(sorted) == multiset(s)
  {
    var pq := PushAll(s);
    PairedBag(pq.Entries(), s);
    sorted := [];
    while pq.Len() > 0
      invariant pq.Valid() && MaxAtRoot(pq.priorities)
      invariant multiset(Pairs(sorted)) + multiset(pq.Entries()) == multiset(Pairs(s))
      invariant SelfPaired(pq.Entries())
      invariant NonIncreasing(sorted)
      invariant |sorted| > 0 ==> forall e :: e in pq.Entries() ==> e.1.value <= sorted[|sorted| - 1]
      decreases |pq.keys|
    {
      ghost var before := pq.Entries();
      var r := pq.Pop();
      if r.Some? {
        PopStep(before, pq.Entries(), r.value, sorted);
        sorted := sorted + [r.value.0];
      }
    }
    PairsBag(sorted, s);
  }

  /** The input of `test_pq_1` is a rearrangement of its expected output. */
  lemma Bag1()
    ensures multiset([5.0, 7.0, 9.0, 2.0, 4.0, 1.0]) == multiset([9.0, 7.0, 5.0, 4.0, 2.0, 1.0])
  {
  }

  /** n, n - 1, …, 1 */
  function Desc(n: nat): (r: seq<real>)
    ensures |r| == n && NonIncreasing(r)
  {
    seq(n, i requires 0 <= i < n => (n - i) as real)
  }

  /** 1, 2, …, n */
  function Asc(n: nat): (r: seq<real>)
    ensures |r| == n
  {
    seq(n, i requires 0 <= i < n => (i + 1) as real)
  }

  lemma {:induction false} AscDescBag(n: nat)
    ensures multiset(Asc(n)) == multiset(Desc(n))
  {
    if n > 0 {
      AscDescBag(n - 1);
      assert Asc(n) == Asc(n - 1) + [n as real];
      assert Desc(n) == [n as real] + Desc(n - 1);
    }
  }

  /** A non-increasing rearrangement of a bag is the expected descending order. */
  lemma SortedMatches(sorted: seq<real>, input: seq<real>, expected: seq<real>)
    requires NonIncreasing(sorted) && multiset(sorted) == multiset(input)
    requires NonIncreasing(expected) && multiset(input) == multiset(expected)
    ensures sorted == expected
  {
    SortedUnique(sorted, expected);
  }

  /** `test_pq_1`. */
  method TestPq1() returns (sorted: seq<real>)
    ensures sorted == [9.0, 7.0, 5.0, 4.0, 2.0, 1.0]
  {
    sorted := SortDescending([5.0, 7.0, 9.0, 2.0, 4.0, 1.0]);
    Bag1();
    SortedMatches(sorted, [5.0, 7.0, 9.0, 2.0, 4.0, 1.0], [9.0, 7.0, 5.0, 4.0, 2.0, 1.0]);
  }

  /** `test_pq_2`. */
  method TestPq2() returns (sorted: seq<real>)
    ensures sorted == [9.0, 8.0, 7.0, 6.0, 5.0, 4.0, 3.0, 2.0, 1.0]
  {
    assert Asc(9) == [1.0, 2.0, 3.0, 4.0, 5.0, 6.0, 7.0, 8.0, 9.0];
    assert Desc(9) == [9.0, 8.0, 7.0, 6.0, 5.0, 4.0, 3.0, 2.0, 1.0];
    sorted := SortDescending([1.0, 2.0, 3.0, 4.0, 5.0, 6.0, 7.0, 8.0, 9.0]);
    AscDescBag(9);
    SortedMatches(sorted, Asc(9), Desc(9));
  }

  /** `test_pq_3`. */
  method TestPq3() returns (sorted: seq<real>)
    ensures sorted == [9.0, 8.0, 7.0, 6.0, 5.0, 4.0, 3.0, 2.0, 1.0]
  {
    assert Desc(9) == [9.0, 8.0, 7.0, 6.0, 5.0, 4.0, 3.0, 2.0, 1.0];
    sorted := SortDescending([9.0, 8.0, 7.0, 6.0, 5.0, 4.0, 3.0, 2.0, 1.0]);
    SortedUnique(sorted, Desc(9));
  }
}
