/**
 * The ranking output of submit/webgraph.c: `heap` sifts one entry of an
 * array of page ids down a max-heap ordered by the pages' PageRank, and
 * print_top_n heapifies the ids 0..size-1 and pulls the n best out of it.
 * PageRank values are doubles in the C; only their order matters here, so
 * they are integers, and the ids come back as a sequence instead of being
 * printed.
 */
module TopN {

  /** Every entry of a is an index into pr. */
  ghost predicate Indices(pr: seq<int>, a: seq<int>)
  {
    forall t :: 0 <= t < |a| ==> 0 <= a[t] < |pr|
  }

  /** The position of the parent of position c > 0 in an implicit binary tree. */
  function Parent(c: int): int
  {
    (c - 1) / 2
  }

  /**
   * a[..n] is a max-heap by pr at every parent position m or later: each
   * child's page ranks no higher than its parent's.
   */
  ghost predicate HeapFrom(pr: seq<int>, a: seq<int>, m: int, n: int)
    requires Indices(pr, a) && n <= |a|
  {
    forall c :: 0 < c < n && m <= Parent(c) ==> pr[a[Parent(c)]] >= pr[a[c]]
  }

  /**
   * The state of the sift loop of `heap`, seen with the saved entry put
   * back at the hole i: a rearrangement of a0 inside [m, n), ordered at
   * every parent from m on except the hole, and the hole's parent ranks
   * at least as high as the hole's children.
   */
  ghost predicate SiftInv(pr: seq<int>, a0: seq<int>, b: seq<int>, m: int, n: int, i: int)
    requires Indices(pr, b) && 0 <= n <= |b|
  {
    0 <= m <= i < |b| && |b| == |a0| && multiset(b) == multiset(a0) &&
    (forall t :: 0 <= t < |b| && !(m <= t < n) ==> b[t] == a0[t]) &&
    (forall c :: 0 < c < n && m <= Parent(c) && Parent(c) != i ==> pr[b[Parent(c)]] >= pr[b[c]]) &&
    (m < i ==> m <= Parent(i) < i) &&
    (m < i ==> forall c :: 0 < c < n && Parent(c) == i ==> pr[b[Parent(i)]] >= pr[b[c]])
  }

  /** Exchanging two positions of [m, n) rearranges b and leaves the outside alone. */
  lemma SwapKeepsFrame(a0: seq<int>, b: seq<int>, m: int, n: int, i: int, j: int)
    requires |b| == |a0| && multiset(b) == multiset(a0) && 0 <= m <= i < j < n <= |b|
    requires forall t :: 0 <= t < |b| && !(m <= t < n) ==> b[t] == a0[t]
    ensures multiset(b[i := b[j]][j := b[i]]) == multiset(a0)
    ensures forall t :: 0 <= t < |b| && !(m <= t < n) ==> b[i := b[j]][j := b[i]][t] == a0[t]
  {
  }

  /**
   * Moving the larger child j of the hole i up into i (and the saved entry
   * down into j) keeps the order part of the sift state, with the hole now at j.
   */
  lemma SwapKeepsOrder(pr: seq<int>, b: seq<int>, m: int, n: int, i: int, j: int)
    requires Indices(pr, b) && 0 <= m <= i && n <= |b|
    requires forall c :: 0 < c < n && m <= Parent(c) && Parent(c) != i ==> pr[b[Parent(c)]] >= pr[b[c]]
    requires m < i ==> m <= Parent(i) < i
    requires m < i ==> forall c :: 0 < c < n && Parent(c) == i ==> pr[b[Parent(i)]] >= pr[b[c]]
    requires (j == 2 * i + 1 || j == 2 * i + 2) && j < n
    requires forall c :: 0 < c < n && Parent(c) == i ==> pr[b[j]] >= pr[b[c]]
    requires pr[b[i]] < pr[b[j]]
    ensures Indices(pr, b[i := b[j]][j := b[i]])
    ensures var b' := b[i := b[j]][j := b[i]];
      forall c :: 0 < c < n && m <= Parent(c) && Parent(c) != j ==> pr[b'[Parent(c)]] >= pr[b'[c]]
    ensures var b' := b[i := b[j]][j := b[i]];
      forall c :: 0 < c < n && Parent(c) == j ==> pr[b'[Parent(j)]] >= pr[b'[c]]
  {
    var b' := b[i := b[j]][j := b[i]];
    assert Parent(j) == i;
    forall c | 0 < c < n && m <= Parent(c) && Parent(c) != j
      ensures pr[b'[Parent(c)]] >= pr[b'[c]]
    {
      if Parent(c) == i {
        if c != j {
          assert b'[c] == b[c];
        }
      } else if c == i {
        assert b'[Parent(c)] == b[Parent(c)];
      } else {
        assert b'[Parent(c)] == b[Parent(c)] && b'[c] == b[c];
      }
    }
    forall c | 0 < c < n && Parent(c) == j
      ensures pr[b'[Parent(j)]] >= pr[b'[c]]
    {
      assert c != i && c != j && b'[c] == b[c];
    }
  }

  /**
   * Moving the entry of the larger child j of the hole i up into the hole
   * keeps the loop state of `heap`, with the hole now at j.
   */
  lemma SiftStep(pr: seq<int>, a0: seq<int>, a: seq<int>, m: int, n: int, i: int, j: int, k: int)
    requires Hole(pr, a0, a, m, n, i, k)
    requires (j == 2 * i + 1 || j == 2 * i + 2) && j < n
    requires forall c :: 0 < c < n && Parent(c) == i ==> pr[a[j]] >= pr[a[c]]
    requires pr[k] < pr[a[j]]
    ensures Hole(pr, a0, a[i := a[j]], m, n, j, k)
  {
    var b := a[i := k];
    assert b[i := b[j]][j := b[i]] == a[i := a[j]][j := k];
    SwapKeepsFrame(a0, b, m, n, i, j);
    SwapKeepsOrder(pr, b, m, n, i, j);
  }

  /**
   * When the hole has no child below n, or already ranks at least as high
   * as both, the sift state is a heap from m.
   */
  lemma SiftDone(pr: seq<int>, a0: seq<int>, b: seq<int>, m: int, n: int, i: int)
    requires Indices(pr, b) && 0 <= n <= |b| && SiftInv(pr, a0, b, m, n, i)
    requires forall c :: 0 < c < n && Parent(c) == i ==> pr[b[i]] >= pr[b[c]]
    ensures HeapFrom(pr, b, m, n)
  {
  }

  /** The loop state of `heap`: index with the saved entry k missing from the hole i. */
  ghost predicate Hole(pr: seq<int>, a0: seq<int>, a: seq<int>, m: int, n: int, i: int, k: int)
  {
    0 <= k < |pr| && 0 <= i < |a| && 0 <= n <= |a| && Indices(pr, a) &&
    Indices(pr, a[i := k]) && SiftInv(pr, a0, a[i := k], m, n, i)
  }

  /**
   * One round of the sift loop of `heap`: pick the larger child j of the
   * hole; if k ranks at least as high, stop, otherwise move j's entry up.
   */
  method SiftOnce(pr: seq<int>, index: array<int>, ghost a0: seq<int>, m: int, n: int, i: int, k: int)
    returns (i': int, stop: bool)
    requires Hole(pr, a0, index[..], m, n, i, k) && i < n / 2
    modifies index
    ensures Hole(pr, a0, index[..], m, n, i', k)
    ensures stop ==> i' == i && forall c :: 0 < c < n && Parent(c) == i ==> pr[k] >= pr[index[c]]
    ensures !stop ==> i < i' < n
  {
    var j := 2 * i + 1;
    if j < n - 1 && pr[index[j]] < pr[index[j + 1]] {
      j := j + 1;
    }
    if pr[k] >= pr[index[j]] {
      return i, true;
    }
    SiftStep(pr, a0, index[..], m, n, i, j, k);
    index[i] := index[j];
    i', stop := j, false;
  }

  /**
   * heap(data, index, n, m): sift index[m] down the heap index[..n]. Only
   * positions in [m, n) move, the entries are rearranged and nothing else,
   * and when both subtrees below m were heaps, the heap now starts at m.
   */
  method Heap(pr: seq<int>, index: array<int>, n: int, m: int)
    requires 0 <= m < index.Length && 0 <= n <= index.Length && Indices(pr, index[..])
    requires HeapFrom(pr, index[..], m + 1, n)
    modifies index
    ensures Indices(pr, index[..]) && multiset(index[..]) == multiset(old(index[..]))
    ensures forall t :: 0 <= t < index.Length && !(m <= t < n) ==> index[t] == old(index[t])
    ensures HeapFrom(pr, index[..], m, n)
  {
    ghost var a0 := index[..];
    var i := m;
    var k := index[i];
    assert index[..][i := k] == a0;
    while i < n / 2
      invariant Hole(pr, a0, index[..], m, n, i, k)
      decreases n - i
    {
      var stop;
      i, stop := SiftOnce(pr, index, a0, m, n, i, k);
      if stop {
        break;
      }
    }
    SiftDone(pr, a0, index[..][i := k], m, n, i);
    index[i] := k;
  }

  /** The ids 0..size-1 of a graph with `size` pages. */
  function Ids(size: nat): (r: seq<int>)
    ensures |r| == size && forall t :: 0 <= t < size ==> r[t] == t
  {
    seq(size, t => t)
  }

  /** The ids of a graph are all different. */
  lemma IdsOnce(size: nat, x: int)
    ensures multiset(Ids(size))[x] == if 0 <= x < size then 1 else 0
  {
    if size > 0 {
      var r := Ids(size);
      assert r == Ids(size - 1) + [size - 1];
      IdsOnce(size - 1, x);
    }
  }

  /** In a heap from position 0, the root ranks at least as high as every entry. */
  lemma {:induction false} RootIsMax(pr: seq<int>, a: seq<int>, r: int, t: int)
    requires Indices(pr, a) && r <= |a| && HeapFrom(pr, a, 0, r) && 0 <= t < r
    ensures pr[a[0]] >= pr[a[t]]
    decreases t
  {
    if t > 0 {
      RootIsMax(pr, a, r, Parent(t));
    }
  }

  /** The root of a heap from position 0 ranks at least as high as every entry. */
  lemma RootDominates(pr: seq<int>, a: seq<int>, r: int)
    requires Indices(pr, a) && 0 < r <= |a| && HeapFrom(pr, a, 0, r)
    ensures forall x :: x in a[..r] ==> pr[a[0]] >= pr[x]
  {
    forall x | x in a[..r]
      ensures pr[a[0]] >= pr[x]
    {
      var t :| 0 <= t < r && a[..r][t] == x;
      RootIsMax(pr, a, r, t);
    }
  }

  /** A heap with its root overwritten is still a heap below the root, over one entry fewer. */
  lemma HeapBelowRoot(pr: seq<int>, a: seq<int>, r: int, x: int)
    requires Indices(pr, a) && 0 < r <= |a| && HeapFrom(pr, a, 0, r) && 0 <= x < |pr|
    ensures Indices(pr, a[0 := x]) && HeapFrom(pr, a[0 := x], 1, r - 1)
  {
    var a' := a[0 := x];
    forall c | 0 < c < r - 1 && 1 <= Parent(c)
      ensures pr[a'[Parent(c)]] >= pr[a'[c]]
    {
      assert a'[Parent(c)] == a[Parent(c)] && a'[c] == a[c];
    }
  }

  /** Two arrays that agree from n on and hold the same entries hold the same entries before n. */
  lemma SamePrefixEntries(a: seq<int>, b: seq<int>, n: int)
    requires |a| == |b| && 0 <= n <= |a| && multiset(a) == multiset(b)
    requires forall t :: n <= t < |a| ==> a[t] == b[t]
    ensures multiset(a[..n]) == multiset(b[..n])
  {
    assert a == a[..n] + a[n..] && b == b[..n] + b[n..];
    assert a[n..] == b[n..];
    assert multiset(a) == multiset(a[..n]) + multiset(a[n..]);
    assert multiset(b) == multiset(b[..n]) + multiset(b[n..]);
    forall x
      ensures multiset(a[..n])[x] == multiset(b[..n])[x]
    {
      assert multiset(a)[x] == multiset(a[..n])[x] + multiset(a[n..])[x];
    }
  }

  /** Moving the last entry of w to its front and dropping the last slot loses exactly w[0]. */
  lemma LastToFront(w: seq<int>)
    requires |w| > 0
    ensures multiset(w[0 := w[|w| - 1]][..|w| - 1]) + multiset{w[0]} == multiset(w)
  {
    var r := |w|;
    if r > 1 {
      assert w == [w[0]] + w[1..r - 1] + [w[r - 1]];
      assert w[0 := w[r - 1]][..r - 1] == [w[r - 1]] + w[1..r - 1];
    }
  }

  /**
   * The pop of print_top_n's second loop: take the root, move the last
   * entry of the heap index[..r] to the root and sift it down the heap
   * index[..r-1]. The root ranks at least as high as everything that was
   * in the heap, and the rest stays a heap.
   */
  method PopMax(pr: seq<int>, index: array<int>, r: int) returns (id: int)
    requires 0 < r <= index.Length && Indices(pr, index[..]) && HeapFrom(pr, index[..], 0, r)
    modifies index
    ensures Indices(pr, index[..]) && HeapFrom(pr, index[..], 0, r - 1)
    ensures id == old(index[0]) && multiset(index[..r - 1]) + multiset{id} == multiset(old(index[..r]))
    ensures forall x :: x in old(index[..r]) ==> pr[id] >= pr[x]
  {
    ghost var a0 := index[..];
    id := index[0];
    HeapBelowRoot(pr, a0, r, index[r - 1]);
    index[0] := index[r - 1];
    ghost var before := index[..];
    Heap(pr, index, r - 1, 0);
    PopEntries(pr, a0, before, index[..], r);
  }

  /**
   * The entries of a pop on values: a0 is the heap before, before is a0
   * with its last heap entry moved to the root, and after is before sifted
   * within [0, r - 1).
   */
  lemma PopEntries(pr: seq<int>, a0: seq<int>, before: seq<int>, after: seq<int>, r: int)
    requires Indices(pr, a0) && 0 < r <= |a0| && HeapFrom(pr, a0, 0, r)
    requires before == a0[0 := a0[r - 1]]
    requires |after| == |a0| && multiset(after) == multiset(before)
    requires forall t :: r - 1 <= t < |after| ==> after[t] == before[t]
    ensures multiset(after[..r - 1]) + multiset{a0[0]} == multiset(a0[..r])
    ensures forall x :: x in a0[..r] ==> pr[a0[0]] >= pr[x]
  {
    RootDominates(pr, a0, r);
    LastToFront(a0[..r]);
    assert before[..r - 1] == a0[..r][0 := a0[r - 1]][..r - 1];
    SamePrefixEntries(after, before, r - 1);
  }

  /**
   * The first loop of print_top_n as the code evidently intends: heap()
   * at every position from size - 1 down to 0 turns index[..size] into a
   * heap, rearranging it and nothing else.
   */
  method Heapify(pr: seq<int>, index: array<int>)
    requires Indices(pr, index[..])
    modifies index
    ensures Indices(pr, index[..]) && multiset(index[..]) == multiset(old(index[..]))
    ensures HeapFrom(pr, index[..], 0, index.Length)
  {
    var size := index.Length;
    var i := size - 1;
    while i >= 0
      invariant -1 <= i < size && Indices(pr, index[..])
      invariant multiset(index[..]) == multiset(old(index[..]))
      invariant HeapFrom(pr, index[..], i + 1, size)
    {
      Heap(pr, index, size, i);
      i := i - 1;
    }
  }

  /**
   * The first loop of print_top_n as written: the positions it hands to
   * heap() start at size itself, one past the end of index, whose first
   * statement reads index[size].
   */
  method HeapifyCallsAsWritten(size: nat) returns (calls: seq<int>)
    ensures |calls| == size + 1 && forall p :: 0 <= p < |calls| ==> calls[p] == size - p
    ensures calls[0] == size
  {
    calls := [];
    var i := size;
    while i >= 0
      invariant -1 <= i <= size && |calls| == size - i
      invariant forall p :: 0 <= p < |calls| ==> calls[p] == size - p
    {
      calls := calls + [i];
      i := i - 1;
    }
  }

  /** The ids are best first. */
  ghost predicate BestFirst(pr: seq<int>, ids: seq<int>)
    requires Indices(pr, ids)
  {
    forall p, q :: 0 <= p < q < |ids| ==> pr[ids[p]] >= pr[ids[q]]
  }

  /**
   * The state of print_top_n's second loop: index[..r] is a heap, it and
   * the ids popped so far are the pages, each once, and the popped ids are
   * best first, the last ranking at least as high as the heap's entries.
   */
  ghost predicate Extracting(pr: seq<int>, a: seq<int>, r: int, ids: seq<int>)
  {
    0 <= r <= |a| && Indices(pr, a) && Indices(pr, ids) && HeapFrom(pr, a, 0, r) &&
    multiset(a[..r]) + multiset(ids) == multiset(Ids(|pr|)) && BestFirst(pr, ids) &&
    (ids != [] ==> forall x :: x in a[..r] ==> pr[ids[|ids| - 1]] >= pr[x])
  }

  /** One round of print_top_n's second loop: pop the best page of the heap index[..r]. */
  method TakeNext(pr: seq<int>, index: array<int>, r: int, ids: seq<int>) returns (ids': seq<int>)
    requires Extracting(pr, index[..], r, ids) && r > 0
    modifies index
    ensures Extracting(pr, index[..], r - 1, ids') && |ids'| == |ids| + 1 && ids'[..|ids|] == ids
  {
    ghost var a0 := index[..];
    var id := PopMax(pr, index, r);
    ids' := ids + [id];
    ExtractStep(pr, a0, index[..], r, ids, id);
  }

  /**
   * TakeNext on values: a0 is the array before the pop, a1 after it, and
   * id the root that was taken.
   */
  lemma ExtractStep(pr: seq<int>, a0: seq<int>, a1: seq<int>, r: int, ids: seq<int>, id: int)
    requires Extracting(pr, a0, r, ids) && r > 0
    requires |a1| == |a0| && Indices(pr, a1) && HeapFrom(pr, a1, 0, r - 1)
    requires id == a0[0] && multiset(a1[..r - 1]) + multiset{id} == multiset(a0[..r])
    requires forall x :: x in a0[..r] ==> pr[id] >= pr[x]
    ensures Extracting(pr, a1, r - 1, ids + [id])
  {
    var w := a0[..r];
    assert id in w;
    assert multiset(ids + [id]) == multiset(ids) + multiset{id};
    forall x | x in a1[..r - 1]
      ensures x in w
    {
      assert x in multiset(a1[..r - 1]);
      assert multiset(w)[x] > 0;
    }
  }

  /**
   * print_top_n, returning the ids it prints: nothing when n exceeds the
   * number of pages; otherwise n different pages, best first, and no page
   * left out ranks higher than the last one returned.
   */
  method PrintTopN(pr: seq<int>, n: int) returns (ids: seq<int>)
    ensures n > |pr| ==> ids == []
    ensures n <= |pr| ==> |ids| == if n < 0 then 0 else n
    ensures forall p :: 0 <= p < |ids| ==> 0 <= ids[p] < |pr|
    ensures multiset(ids) <= multiset(Ids(|pr|))
    ensures forall p, q :: 0 <= p < q < |ids| ==> pr[ids[p]] >= pr[ids[q]]
    ensures forall x :: 0 <= x < |pr| && x !in ids && ids != [] ==> pr[x] <= pr[ids[|ids| - 1]]
  {
    if n > |pr| {
      ids := [];
    } else {
      ids := SelectTop(pr, n);
    }
  }

  /** print_top_n once n is known not to exceed the number of pages. */
  method SelectTop(pr: seq<int>, n: int) returns (ids: seq<int>)
    requires n <= |pr|
    ensures |ids| == if n < 0 then 0 else n
    ensures Indices(pr, ids) && BestFirst(pr, ids)
    ensures multiset(ids) <= multiset(Ids(|pr|))
    ensures forall x :: 0 <= x < |pr| && x !in ids && ids != [] ==> pr[x] <= pr[ids[|ids| - 1]]
  {
    var size := |pr|;
    var index := IdentityIndex(size);
    Heapify(pr, index);
    ids := [];
    var i := 0;
    assert index[..size] == index[..];
    assert Extracting(pr, index[..], size, ids);
    while i < n
      invariant 0 <= i && (i <= n || i == 0) && |ids| == i && Extracting(pr, index[..], size - i, ids)
    {
      ids := TakeNext(pr, index, size - i, ids);
      i := i + 1;
    }
    TopNFromPool(pr, ids, index[..size - i]);
  }

  /** The index array of print_top_n before the heap is built: every id at its own place. */
  method IdentityIndex(size: nat) returns (index: array<int>)
    ensures fresh(index) && index[..] == Ids(size)
  {
    index := new int[size];
    var i := 0;
    while i < size
      invariant 0 <= i <= size && index[..i] == Ids(i)
    {
      index[i] := i;
      i := i + 1;
    }
    assert index[..] == index[..size];
  }

  /**
   * What print_top_n's second loop leaves: the popped ids and the rest of
   * the heap together are the pages, each once, so the ids are different
   * pages and every page not popped is in the rest, below the last popped.
   */
  lemma TopNFromPool(pr: seq<int>, ids: seq<int>, rest: seq<int>)
    requires Indices(pr, ids) && Indices(pr, rest) && multiset(rest) + multiset(ids) == multiset(Ids(|pr|))
    requires ids != [] ==> forall x :: x in rest ==> pr[ids[|ids| - 1]] >= pr[x]
    ensures multiset(ids) <= multiset(Ids(|pr|))
    ensures forall x :: 0 <= x < |pr| && x !in ids && ids != [] ==> pr[x] <= pr[ids[|ids| - 1]]
  {
    forall x | 0 <= x < |pr| && x !in ids
      ensures x in rest
    {
      IdsOnce(|pr|, x);
      assert multiset(ids)[x] == 0;
    }
  }
}
