/** The transaction queue of an account: a binary heap by nonce, then by higher gas price. */
module AccountQueue {
  import opened Wrappers
  import opened HeapOrder
  import opened Words

  /** A `*types.Transaction`; `ref` is the pointer. */
  datatype Tx = Tx(ref: nat, from: nat, nonce: U64, gasPrice: int)

  predicate TxLess(a: Tx, b: Tx)
  {
    if a.nonce == b.nonce then a.gasPrice > b.gasPrice else a.nonce < b.nonce
  }

  lemma TxLessIsStrictWeakOrder()
    ensures StrictWeakOrder(TxLess)
  {
  }

  lemma SwappedMultiset<K>(s: seq<K>, i: nat, j: nat)
    requires i < |s| && j < |s|
    ensures multiset(Swapped(s, i, j)) == multiset(s)
  {
  }

  lemma LastToFront<K>(s: seq<K>)
    requires |s| > 1
    ensures multiset(s) == multiset(s[..|s| - 1][0 := s[|s| - 1]]) + multiset{s[0]}
  {
    var n := |s| - 1;
    assert s == [s[0]] + s[1..n] + [s[n]];
    assert s[..n][0 := s[n]] == [s[n]] + s[1..n];
  }

  class Queue {
    var queue: seq<Tx>

    constructor ()
      ensures queue == [] && Valid()
    {
      queue := [];
    }

    ghost predicate Valid()
      reads this
    {
      IsHeap(queue, TxLess)
    }

    function Peek(): Option<Tx>
      reads this
    {
      if |queue| == 0 then None else Some(queue[0])
    }

    /** Nothing in the queue sorts before the first transaction. */
    lemma PeekIsLeast(t: Tx)
      requires Valid() && t in queue
      ensures !TxLess(t, queue[0])
    {
      TxLessIsStrictWeakOrder();
      var i :| 0 <= i < |queue| && queue[i] == t;
      RootIsLeast(queue, TxLess, i);
    }

    method Push(tx: Tx)
      requires Valid()
      modifies this
      ensures Valid()
      ensures multiset(queue) == multiset(old(queue)) + multiset{tx}
    {
      hide StrictWeakOrder;
      TxLessIsStrictWeakOrder();
      AppendOne(queue, TxLess, tx);
      queue := queue + [tx];
      var k: nat := |queue| - 1;
      while k != 0 && TxLess(queue[k], queue[Parent(k)])
        invariant k < |queue| && HeapButUp(queue, TxLess, k)
        invariant multiset(queue) == multiset(old(queue)) + multiset{tx}
      {
        hide HeapButUp;
        var p := Parent(k);
        SiftUpStep(queue, TxLess, k);
        SwappedMultiset(queue, k, p);
        queue := Swapped(queue, k, p);
        k := p;
      }
      SiftUpDone(queue, TxLess, k);
    }

    method PickChild(k: nat) returns (c: nat)
      requires 2 * k + 1 < |queue|
      ensures SmallerChild(queue, TxLess, k, c)
    {
      c := 2 * k + 1;
      if c + 1 < |queue| && TxLess(queue[c + 1], queue[c]) {
        c := c + 1;
      }
    }

    /** Restores the order below a replaced first transaction. */
    method DownFromRoot()
      requires queue != [] && HeapButDown(queue, TxLess, 0, 0)
      modifies this
      ensures Valid() && multiset(queue) == multiset(old(queue))
    {
      hide StrictWeakOrder, HeapButDown;
      TxLessIsStrictWeakOrder();
      var k: nat := 0;
      while true
        invariant k < |queue| == |old(queue)| && HeapButDown(queue, TxLess, k, 0)
        invariant multiset(queue) == multiset(old(queue))
        decreases |queue| - k
      {
        if 2 * k + 1 >= |queue| {
          break;
        }
        var c := PickChild(k);
        if !TxLess(queue[c], queue[k]) {
          assert forall m :: k < m < |queue| && Parent(m) == k ==> !TxLess(queue[m], queue[k]) by {
            assert SmallerChild(queue, TxLess, k, c);
          }
          break;
        }
        SiftDownStep(queue, TxLess, k, 0, c);
        SwappedMultiset(queue, k, c);
        queue := Swapped(queue, k, c);
        k := c;
      }
      if k == 0 {
        SiftDownUnmoved(queue, TxLess, 0);
        SiftUpDone(queue, TxLess, 0);
      } else {
        SiftDownMoved(queue, TxLess, k, 0);
      }
    }

    method Pop() returns (r: Option<Tx>)
      requires Valid()
      modifies this
      ensures Valid()
      ensures r == old(Peek())
      ensures r.Some? ==> multiset(old(queue)) == multiset(queue) + multiset{r.value}
      ensures r.None? ==> queue == []
    {
      hide IsHeap, HeapButDown, StrictWeakOrder;
      if |queue| == 0 {
        return None;
      }
      var first, n := queue[0], |queue| - 1;
      HeapPrefix(queue, TxLess, n);
      if n == 0 {
        assert queue == [first];
        queue := queue[..n];
        return Some(first);
      }
      TxLessIsStrictWeakOrder();
      ReplaceOne(queue[..n], TxLess, 0, queue[n]);
      LastToFront(queue);
      queue := queue[..n][0 := queue[n]];
      DownFromRoot();
      return Some(first);
    }

    /** Removes exactly the transactions with a lower nonce. */
    method Prune(nonce: U64) returns (pruned: seq<Tx>)
      requires Valid()
      modifies this
      ensures Valid()
      ensures multiset(old(queue)) == multiset(queue) + multiset(pruned)
      ensures forall t :: t in pruned ==> t.nonce < nonce
      ensures forall t :: t in queue ==> t.nonce >= nonce
    {
      pruned := [];
      while true
        invariant Valid() && multiset(old(queue)) == multiset(queue) + multiset(pruned)
        invariant forall t :: t in pruned ==> t.nonce < nonce
        decreases |queue|
      {
        if |queue| == 0 || queue[0].nonce >= nonce {
          break;
        }
        var r := Pop();
        pruned := pruned + [r.value];
      }
      forall t | t in queue
        ensures t.nonce >= nonce
      {
        PeekIsLeast(t);
      }
    }
  }
}
