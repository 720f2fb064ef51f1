/** Go's container/heap over entries that store their own position, as the filter timeouts
    and the dial queue use it. */
module IndexedHeap {
  import opened HeapOrder

  const NO_INDEX := -1

  predicate Less(a: int, b: int) { a < b }

  /** An element of a heap: its sort key and where it sits, or NO_INDEX outside a heap. */
  class Entry<P> {
    const info: P
    var key: int
    var index: int

    constructor (info: P, key: int, index: int)
      ensures this.info == info && this.key == key && this.index == index
    {
      this.info, this.key, this.index := info, key, index;
    }
  }

  class Heap<P> {
    var items: seq<Entry<P>>

    constructor ()
      ensures items == [] && Valid()
    {
      items := [];
    }

    ghost function Keys(): (ks: seq<int>)
      reads this, items
      ensures |ks| == |items| && forall i :: 0 <= i < |items| ==> ks[i] == items[i].key
    {
      seq(|items|, i requires 0 <= i < |items| reads this, items => items[i].key)
    }

    /** Every entry's stored index is its position; so the entries are distinct. */
    ghost predicate Indexed()
      reads this, items
    {
      forall i :: 0 <= i < |items| ==> items[i].index == i
    }

    ghost predicate Valid()
      reads this, items
    {
      Indexed() && IsHeap(Keys(), Less)
    }

    ghost function Members(): set<Entry<P>>
      reads this
    {
      set e | e in items
    }

    /** The stored index finds a member, and only a member. */
    lemma Located(e: Entry<P>)
      requires Indexed()
      ensures e in Members() <==> 0 <= e.index < |items| && items[e.index] == e
    {
    }

    twostate lemma OursWithout(e: Entry<P>)
      requires Members() == old(Members()) - {e}
      ensures forall m :: 0 <= m < |items| ==> items[m] in old(items)
    {
      forall m | 0 <= m < |items|
        ensures items[m] in old(items)
      {
        assert items[m] in Members();
      }
    }

    /** Entries that were moved around stay in the frame of the method. */
    twostate lemma StillOurs()
      requires Members() == old(Members())
      ensures forall m :: 0 <= m < |items| ==> items[m] in old(items)
    {
      forall m | 0 <= m < |items|
        ensures items[m] in old(items)
      {
        assert items[m] in Members();
      }
    }

    method Swap(i: nat, j: nat)
      requires Indexed() && i < |items| && j < |items|
      modifies this`items, items`index
      ensures Indexed()
      ensures items == Swapped(old(items), i, j) && Members() == old(Members())
      ensures Keys() == Swapped(old(Keys()), i, j)
    {
      items := items[i := items[j]][j := items[i]];
      items[i].index := i;
      items[j].index := j;
      forall e
        ensures e in items <==> e in old(items)
      {
        if e in old(items) {
          var k :| 0 <= k < |items| && old(items)[k] == e;
          assert items[if k == i then j else if k == j then i else k] == e;
        }
      }
    }

    /** Sifts position j up within the first n entries. */
    method Up(j: nat, n: nat)
      requires Indexed() && j < n <= |items| && HeapButUp(Keys()[..n], Less, j)
      modifies this`items, items`index
      ensures Indexed()
      ensures |items| == |old(items)| && items[n..] == old(items[n..]) && Members() == old(Members())
      ensures IsHeap(Keys()[..n], Less)
    {
      hide StrictWeakOrder, HeapButUp, IsHeap;
      LessIsStrictWeakOrder();
      var k: nat := j;
      while k != 0 && items[k].key < items[Parent(k)].key
        invariant Indexed() && k < n <= |items| == |old(items)|
        invariant items[n..] == old(items[n..]) && Members() == old(Members())
        invariant HeapButUp(Keys()[..n], Less, k)
      {
        var p := Parent(k);
        SiftUpStep(Keys()[..n], Less, k);
        SwappedPrefix(Keys(), k, p, n);
        SwappedPrefix(items, k, p, n);
        StillOurs();
        Swap(k, p);
        k := p;
      }
      SiftUpDone(Keys()[..n], Less, k);
    }

    method PickChild(k: nat, n: nat) returns (c: nat)
      requires n <= |items| && 2 * k + 1 < n
      ensures SmallerChild(Keys()[..n], Less, k, c)
    {
      c := 2 * k + 1;
      if c + 1 < n && items[c + 1].key < items[c].key {
        c := c + 1;
      }
    }

    /** Sifts position i down within the first n entries; says whether it moved. */
    method Down(i: nat, n: nat) returns (moved: bool)
      requires Indexed() && i < n <= |items| && HeapButDown(Keys()[..n], Less, i, i)
      modifies this`items, items`index
      ensures Indexed()
      ensures |items| == |old(items)| && items[n..] == old(items[n..]) && Members() == old(Members())
      ensures moved ==> IsHeap(Keys()[..n], Less)
      ensures !moved ==> HeapButUp(Keys()[..n], Less, i)
    {
      hide StrictWeakOrder, HeapButUp, HeapButDown, IsHeap;
      LessIsStrictWeakOrder();
      var k: nat := i;
      while true
        invariant Indexed() && i <= k < n <= |items| == |old(items)|
        invariant items[n..] == old(items[n..]) && Members() == old(Members())
        invariant HeapButDown(Keys()[..n], Less, k, i)
        decreases n - k
      {
        if 2 * k + 1 >= n {
          break;
        }
        var c := PickChild(k, n);
        if !(items[c].key < items[k].key) {
          assert forall m :: k < m < n && Parent(m) == k ==> !Less(Keys()[..n][m], Keys()[..n][k]);
          break;
        }
        SiftDownStep(Keys()[..n], Less, k, i, c);
        SwappedPrefix(Keys(), k, c, n);
        SwappedPrefix(items, k, c, n);
        StillOurs();
        Swap(k, c);
        k := c;
      }
      moved := k > i;
      if moved {
        SiftDownMoved(Keys()[..n], Less, k, i);
      } else {
        SiftDownUnmoved(Keys()[..n], Less, k);
      }
    }

    method Push(e: Entry<P>)
      requires Valid() && e !in Members()
      modifies this`items, items`index, e`index
      ensures Valid()
      ensures Members() == old(Members()) + {e} && |items| == |old(items)| + 1
    {
      ghost var before := Keys();
      e.index := |items|;
      items := items + [e];
      assert Keys()[..|before|] == before;
      AppendOne(before, Less, e.key);
      assert Keys() == before + [e.key];
      assert Keys()[..|items|] == Keys();
      Up(|items| - 1, |items|);
      assert Keys()[..|items|] == Keys();
    }

    /** Takes the last entry off and marks it as outside. */
    method DropLast() returns (e: Entry<P>)
      requires Indexed() && items != []
      modifies this`items, items`index
      ensures Indexed()
      ensures e == old(items)[|old(items)| - 1] && e.index == NO_INDEX
      ensures items == old(items)[..|old(items)| - 1] && Keys() == old(Keys())[..|items|]
      ensures Members() == old(Members()) - {e}
    {
      var n := |items| - 1;
      e := items[n];
      e.index := NO_INDEX;
      items := items[..n];
      assert old(items) == items + [e];
    }

    /** Restores the order around a replaced entry: down, else up. */
    method Settle(i: nat, n: nat)
      requires Indexed() && i < n <= |items| && HeapButDown(Keys()[..n], Less, i, i)
      modifies this`items, items`index
      ensures Indexed()
      ensures |items| == |old(items)| && items[n..] == old(items[n..]) && Members() == old(Members())
      ensures IsHeap(Keys()[..n], Less)
    {
      hide IsHeap, HeapButUp, HeapButDown;
      var moved := Down(i, n);
      if !moved {
        StillOurs();
        Up(i, n);
      }
    }

    /** Exchanges the entry at position i with the last one, unless it is the last one, and
        settles the rest. */
    method MoveToEnd(i: nat)
      requires Valid() && i < |items|
      modifies this`items, items`index
      ensures Indexed() && |items| == |old(items)| && Members() == old(Members())
      ensures items[|items| - 1] == old(items)[i]
      ensures IsHeap(Keys()[..|items| - 1], Less)
    {
      hide IsHeap, HeapButDown, StrictWeakOrder;
      var n := |items| - 1;
      HeapPrefix(Keys(), Less, n);
      if i == n {
        return;
      }
      LessIsStrictWeakOrder();
      ReplaceOne(Keys()[..n], Less, i, Keys()[n]);
      assert Swapped(Keys(), i, n)[..n] == Keys()[..n][i := Keys()[n]];
      Swap(i, n);
      StillOurs();
      assert items[n..] == [old(items)[i]];
      Settle(i, n);
      assert items[n] == items[n..][0];
    }

    /** Removes the entry at position i. */
    method Remove(i: nat) returns (e: Entry<P>)
      requires Valid() && i < |items|
      modifies this`items, items`index
      ensures Valid()
      ensures e == old(items)[i] && e.index == NO_INDEX
      ensures Members() == old(Members()) - {e} && |items| == |old(items)| - 1
      ensures forall m :: 0 <= m < |items| ==> items[m] in old(items)
    {
      hide IsHeap, Keys, Members, Indexed;
      MoveToEnd(i);
      StillOurs();
      e := DropLast();
      OursWithout(e);
    }

    lemma FirstIsLeast()
      requires Valid() && items != []
      ensures forall x :: x in Members() ==> items[0].key <= x.key
    {
      LessIsStrictWeakOrder();
      forall k | 0 <= k < |items|
        ensures items[0].key <= items[k].key
      {
        RootIsLeast(Keys(), Less, k);
      }
    }

    /** Removes an entry with the smallest key. */
    method Pop() returns (e: Entry<P>)
      requires Valid() && items != []
      modifies this`items, items`index
      ensures Valid()
      ensures e == old(items)[0] && e.index == NO_INDEX
      ensures Members() == old(Members()) - {e} && |items| == |old(items)| - 1
      ensures forall x :: x in old(Members()) ==> e.key <= x.key
    {
      FirstIsLeast();
      e := Remove(0);
    }
  }

  lemma LessIsStrictWeakOrder()
    ensures StrictWeakOrder(Less)
  {
  }
}
