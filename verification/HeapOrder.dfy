/** The order argument behind Go's container/heap, on sequences: what sifting up and sifting
    down keep, for any strict weak order. */
module HeapOrder {

  ghost predicate StrictWeakOrder<K(!new)>(less: (K, K) -> bool)
  {
    && (forall a, b :: less(a, b) ==> !less(b, a))
    && (forall a, b, c :: !less(a, b) && !less(b, c) ==> !less(a, c))
  }

  function Parent(i: nat): nat
    requires i > 0
  {
    (i - 1) / 2
  }

  /** The pair (i, parent of i) is in order. */
  ghost predicate Ordered<K>(s: seq<K>, less: (K, K) -> bool, i: nat)
    requires 0 < i < |s|
  {
    !less(s[i], s[Parent(i)])
  }

  ghost predicate IsHeap<K>(s: seq<K>, less: (K, K) -> bool)
  {
    forall i :: 0 < i < |s| ==> Ordered(s, less, i)
  }

  /** The children of j are in order with the parent of j. */
  ghost predicate Bridged<K>(s: seq<K>, less: (K, K) -> bool, j: nat)
  {
    0 < j < |s| ==> forall i :: j < i < |s| && Parent(i) == j ==> !less(s[i], s[Parent(j)])
  }

  /** A heap except that position j may be too small for its parent. */
  ghost predicate HeapButUp<K>(s: seq<K>, less: (K, K) -> bool, j: nat)
  {
    && j < |s| && Bridged(s, less, j)
    && forall i :: 0 < i < |s| && i != j ==> Ordered(s, less, i)
  }

  /** A heap except that position i may be too large for its children and, while it has not
      moved from start, too small for its parent. */
  ghost predicate HeapButDown<K>(s: seq<K>, less: (K, K) -> bool, i: nat, start: nat)
  {
    && i < |s| && Bridged(s, less, i)
    && forall k :: 0 < k < |s| && Parent(k) != i && (k != i || i != start) ==> Ordered(s, less, k)
  }

  function Swapped<K>(s: seq<K>, i: nat, j: nat): seq<K>
    requires i < |s| && j < |s|
  {
    s[i := s[j]][j := s[i]]
  }

  lemma SwappedPrefix<K>(s: seq<K>, i: nat, j: nat, n: nat)
    requires i < n <= |s| && j < n
    ensures Swapped(s, i, j)[..n] == Swapped(s[..n], i, j)
    ensures Swapped(s, i, j)[n..] == s[n..]
  {
  }

  /** Nothing is smaller than the root. */
  lemma {:induction false} RootIsLeast<K(!new)>(s: seq<K>, less: (K, K) -> bool, i: nat)
    requires StrictWeakOrder(less) && IsHeap(s, less) && i < |s|
    ensures !less(s[i], s[0])
  {
    if i > 0 {
      assert Ordered(s, less, i);
      RootIsLeast(s, less, Parent(i));
    }
  }

  lemma SiftUpStep<K(!new)>(s: seq<K>, less: (K, K) -> bool, j: nat)
    requires StrictWeakOrder(less) && 0 < j && HeapButUp(s, less, j) && less(s[j], s[Parent(j)])
    ensures HeapButUp(Swapped(s, j, Parent(j)), less, Parent(j))
  {
    var p, t := Parent(j), Swapped(s, j, Parent(j));
    forall i | 0 < i < |t| && i != p
      ensures Ordered(t, less, i)
    {
      assert i != j ==> Ordered(s, less, i);
    }
    forall i | p < i < |t| && Parent(i) == p && 0 < p
      ensures !less(t[i], t[Parent(p)])
    {
      assert Ordered(s, less, p);
      assert i != j ==> Ordered(s, less, i);
    }
  }

  lemma SiftUpDone<K>(s: seq<K>, less: (K, K) -> bool, j: nat)
    requires HeapButUp(s, less, j) && (j == 0 || !less(s[j], s[Parent(j)]))
    ensures IsHeap(s, less)
  {
  }

  /** j is the smaller child of i. */
  ghost predicate SmallerChild<K>(s: seq<K>, less: (K, K) -> bool, i: nat, j: nat)
  {
    && i < j < |s| && Parent(j) == i
    && forall k :: i < k < |s| && Parent(k) == i ==> !less(s[k], s[j])
  }

  lemma SiftDownStep<K(!new)>(s: seq<K>, less: (K, K) -> bool, i: nat, start: nat, j: nat)
    requires StrictWeakOrder(less) && start <= i && HeapButDown(s, less, i, start)
    requires SmallerChild(s, less, i, j) && less(s[j], s[i])
    ensures HeapButDown(Swapped(s, i, j), less, j, start)
  {
    var t := Swapped(s, i, j);
    forall k | 0 < k < |t| && Parent(k) != j && (k != j || j != start)
      ensures Ordered(t, less, k)
    {
      if k != i && k != j && Parent(k) != i {
        assert Ordered(s, less, k);
      }
    }
    forall k | j < k < |t| && Parent(k) == j
      ensures !less(t[k], t[Parent(j)])
    {
      assert Ordered(s, less, k);
    }
  }

  /** Stopped after moving: a heap again. */
  lemma SiftDownMoved<K>(s: seq<K>, less: (K, K) -> bool, i: nat, start: nat)
    requires HeapButDown(s, less, i, start) && i != start
    requires forall k :: i < k < |s| && Parent(k) == i ==> !less(s[k], s[i])
    ensures IsHeap(s, less)
  {
    forall k | 0 < k < |s|
      ensures Ordered(s, less, k)
    {
      assert Parent(k) < k;
    }
  }

  /** Stopped without moving: only the upward pair is open. */
  lemma SiftDownUnmoved<K>(s: seq<K>, less: (K, K) -> bool, i: nat)
    requires HeapButDown(s, less, i, i)
    requires forall k :: i < k < |s| && Parent(k) == i ==> !less(s[k], s[i])
    ensures HeapButUp(s, less, i)
  {
    forall k | 0 < k < |s| && k != i
      ensures Ordered(s, less, k)
    {
      assert Parent(k) < k;
    }
  }

  /** Putting any value at position i of a heap opens only position i. */
  lemma ReplaceOne<K(!new)>(s: seq<K>, less: (K, K) -> bool, i: nat, x: K)
    requires StrictWeakOrder(less) && IsHeap(s, less) && i < |s|
    ensures HeapButDown(s[i := x], less, i, i)
  {
    var t := s[i := x];
    forall k | 0 < k < |t| && Parent(k) != i && k != i
      ensures Ordered(t, less, k)
    {
      assert Ordered(s, less, k);
    }
    forall k | i < k < |t| && Parent(k) == i && 0 < i
      ensures !less(t[k], t[Parent(i)])
    {
      assert Ordered(s, less, k) && Ordered(s, less, i);
    }
  }

  lemma HeapPrefix<K>(s: seq<K>, less: (K, K) -> bool, n: nat)
    requires IsHeap(s, less) && n <= |s|
    ensures IsHeap(s[..n], less)
  {
    forall i | 0 < i < n
      ensures Ordered(s[..n], less, i)
    {
      assert Ordered(s, less, i);
    }
  }

  /** Appending any value to a heap opens only the last position. */
  lemma AppendOne<K>(s: seq<K>, less: (K, K) -> bool, x: K)
    requires IsHeap(s, less)
    ensures HeapButUp(s + [x], less, |s|)
  {
    forall i | 0 < i < |s|
      ensures Ordered(s + [x], less, i)
    {
      assert Ordered(s, less, i);
    }
  }
}
