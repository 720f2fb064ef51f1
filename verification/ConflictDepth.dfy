/** When parallel groups agree with block order, read off the block itself: every transaction
    must have conflicting predecessors at all depths below its own. */
module ConflictDepth {
  import opened ParallelExecutor
  import opened Seqs
  import T = TraceEquivalence

  /** Transaction j comes before i and conflicts with it. */
  ghost predicate Blocks(txs: seq<ParallelTx>, j: int, i: int)
  {
    0 <= j < i < |txs| && T.Conflicts(txs[j], txs[i])
  }

  /** The length of the longest chain of conflicting predecessors. */
  ghost function Depth(txs: seq<ParallelTx>, i: nat): nat
    requires i < |txs|
    decreases i, i + 1
  {
    DepthFrom(txs, i, i)
  }

  ghost function DepthFrom(txs: seq<ParallelTx>, i: nat, k: nat): nat
    requires k <= i < |txs|
    decreases i, k
  {
    if k == 0 then 0
    else
      var d := DepthFrom(txs, i, k - 1);
      if Blocks(txs, k - 1, i) && Depth(txs, k - 1) >= d then Depth(txs, k - 1) + 1 else d
  }

  /** Every transaction has a conflicting predecessor at every depth below its own. */
  ghost predicate Layered(txs: seq<ParallelTx>)
  {
    forall i, l: nat :: 0 <= i < |txs| && l < Depth(txs, i) ==> BlockedAt(txs, i, l)
  }

  ghost predicate BlockedAt(txs: seq<ParallelTx>, i: nat, l: nat)
    requires i < |txs|
  {
    exists j :: Blocks(txs, j, i) && Depth(txs, j) == l
  }

  // ---------------------------------------------------------------------------
  // Depth is the length of the longest chain
  // ---------------------------------------------------------------------------

  lemma {:induction false} DepthFromIs(txs: seq<ParallelTx>, i: nat, k: nat)
    requires k <= i < |txs|
    ensures forall j :: j < k && Blocks(txs, j, i) ==> Depth(txs, j) < DepthFrom(txs, i, k)
    ensures DepthFrom(txs, i, k) > 0 ==> exists j :: Blocks(txs, j, i) && Depth(txs, j) == DepthFrom(txs, i, k) - 1
  {
    if k > 0 {
      DepthFromIs(txs, i, k - 1);
    }
  }

  ghost predicate IsChain(txs: seq<ParallelTx>, chain: seq<nat>, i: nat)
  {
    && chain != [] && chain[|chain| - 1] == i < |txs|
    && forall k :: 0 <= k < |chain| - 1 ==> Blocks(txs, chain[k], chain[k + 1])
  }

  /** No chain of conflicts that ends in i is longer, and one is as long. */
  lemma {:induction false} DepthIsLongestChain(txs: seq<ParallelTx>, i: nat) returns (longest: seq<nat>)
    requires i < |txs|
    ensures IsChain(txs, longest, i) && |longest| == Depth(txs, i) + 1
    ensures forall chain :: IsChain(txs, chain, i) ==> |chain| <= Depth(txs, i) + 1
    decreases i
  {
    DepthFromIs(txs, i, i);
    if Depth(txs, i) == 0 {
      longest := [i];
    } else {
      var j :| Blocks(txs, j, i) && Depth(txs, j) == Depth(txs, i) - 1;
      var before := DepthIsLongestChain(txs, j);
      longest := before + [i];
    }
    forall chain | IsChain(txs, chain, i)
      ensures |chain| <= Depth(txs, i) + 1
    {
      ChainIsShort(txs, chain, i);
    }
  }

  lemma {:induction false} ChainIsShort(txs: seq<ParallelTx>, chain: seq<nat>, i: nat)
    requires IsChain(txs, chain, i)
    ensures |chain| <= Depth(txs, i) + 1
    decreases |chain|
  {
    var n := |chain| - 1;
    if n > 0 {
      assert Blocks(txs, chain[n - 1], chain[n]);
      ChainIsShort(txs, chain[..n], chain[n - 1]);
      DepthFromIs(txs, i, i);
    }
  }

  // ---------------------------------------------------------------------------
  // The group of each transaction
  // ---------------------------------------------------------------------------

  /** The group that first fit puts transaction i into. */
  ghost function Level(txs: seq<ParallelTx>, i: nat): nat
    requires i < |txs|
  {
    FirstFit(Grouping(txs[..i]), txs[i])
  }

  ghost predicate HeldUpAt(txs: seq<ParallelTx>, i: nat, l: nat)
    requires i < |txs|
  {
    exists j :: Blocks(txs, j, i) && Level(txs, j) == l
  }

  lemma {:induction false} LevelIsGroup(txs: seq<ParallelTx>, i: nat)
    requires i < |txs|
    ensures Level(txs, i) < |Grouping(txs)| && txs[i] in Grouping(txs)[Level(txs, i)]
    decreases |txs|
  {
    var n := |txs| - 1;
    if i < n {
      LevelIsGroup(txs[..n], i);
      assert txs[..n][..i] == txs[..i];
    }
  }

  lemma OnlyLevel(txs: seq<ParallelTx>, i: nat, p: nat)
    requires T.Distinct(txs) && i < |txs| && p < |Grouping(txs)| && txs[i] in Grouping(txs)[p]
    ensures p == Level(txs, i)
  {
    hide Grouping, Concat;
    LevelIsGroup(txs, i);
    GroupingDistinct(txs);
    ConcatDisjoint(Grouping(txs), p, Level(txs, i), txs[i]);
  }

  /** First fit skips exactly the groups of conflicting predecessors. */
  lemma LevelIsFirstFree(txs: seq<ParallelTx>, i: nat)
    requires T.Distinct(txs) && i < |txs|
    ensures forall j :: Blocks(txs, j, i) ==> Level(txs, j) != Level(txs, i)
    ensures forall l: nat :: l < Level(txs, i) ==> HeldUpAt(txs, i, l)
  {
    var init, t := txs[..i], txs[i];
    var groups := Grouping(init);
    assert T.Distinct(init);
    forall j | Blocks(txs, j, i)
      ensures Level(txs, j) != Level(txs, i)
    {
      LevelInPrefix(txs, i, j);
      LevelIsGroup(init, j);
      T.ConflictsSymmetric(txs[j], t);
      var m :| 0 <= m < |groups[Level(txs, j)]| && groups[Level(txs, j)][m] == txs[j];
      assert ConflictsWithGroupSpec(t, groups[Level(txs, j)]);
    }
    forall l: nat | l < Level(txs, i)
      ensures HeldUpAt(txs, i, l)
    {
      assert ConflictsWithGroupSpec(t, groups[l]);
      var j := BlockerAt(txs, i, l);
    }
  }

  lemma LevelInPrefix(txs: seq<ParallelTx>, i: nat, j: nat)
    requires j < i <= |txs|
    ensures Level(txs[..i], j) == Level(txs, j)
  {
    assert txs[..i][..j] == txs[..j];
  }

  lemma BlockerAt(txs: seq<ParallelTx>, i: nat, l: nat) returns (j: nat)
    requires T.Distinct(txs) && i < |txs| && l < |Grouping(txs[..i])|
    requires ConflictsWithGroupSpec(txs[i], Grouping(txs[..i])[l])
    ensures Blocks(txs, j, i) && Level(txs, j) == l
  {
    var init, t := txs[..i], txs[i];
    var g := Grouping(init)[l];
    var m :| 0 <= m < |g| && T.Conflicts(t, g[m]);
    MemberOfInput(init, l, g[m]);
    j :| 0 <= j < |init| && init[j] == g[m];
    T.ConflictsSymmetric(txs[j], t);
    assert T.Distinct(init);
    hide Grouping;
    OnlyLevel(init, j, l);
    LevelInPrefix(txs, i, j);
  }

  // ---------------------------------------------------------------------------
  // Group order against block order
  // ---------------------------------------------------------------------------

  /** No predecessor that conflicts is put into a later group. */
  ghost predicate LevelsRise(txs: seq<ParallelTx>)
  {
    forall i, j :: Blocks(txs, j, i) ==> Level(txs, j) <= Level(txs, i)
  }

  lemma NoInversionIsLevelsRise(txs: seq<ParallelTx>)
    requires T.Distinct(txs)
    ensures NoInversion(txs) <==> LevelsRise(txs)
  {
    hide Grouping, Level;
    if NoInversion(txs) {
      forall i, j | Blocks(txs, j, i)
        ensures Level(txs, j) <= Level(txs, i)
      {
        LevelIsGroup(txs, i);
        LevelIsGroup(txs, j);
        assert T.Before(txs, txs[j], txs[i]);
      }
    }
    if LevelsRise(txs) {
      forall u, v, p, q | 0 <= p < |Grouping(txs)| && 0 <= q < |Grouping(txs)| && u in Grouping(txs)[p]
                          && v in Grouping(txs)[q] && T.Conflicts(u, v) && T.Before(txs, u, v)
        ensures p <= q
      {
        var j, i :| 0 <= j < i < |txs| && txs[j] == u && txs[i] == v;
        OnlyLevel(txs, j, p);
        OnlyLevel(txs, i, q);
        assert Blocks(txs, j, i);
      }
    }
  }

  lemma {:induction false} LayeredLevelIsDepth(txs: seq<ParallelTx>, i: nat)
    requires T.Distinct(txs) && Layered(txs) && i < |txs|
    ensures Level(txs, i) == Depth(txs, i)
    decreases i
  {
    hide Level;
    forall j | Blocks(txs, j, i)
      ensures Level(txs, j) == Depth(txs, j)
    {
      LayeredLevelIsDepth(txs, j);
    }
    LevelIsFirstFree(txs, i);
    DepthFromIs(txs, i, i);
    SameMex(txs, i);
  }

  lemma SameMex(txs: seq<ParallelTx>, i: nat)
    requires i < |txs| && forall j :: Blocks(txs, j, i) ==> Level(txs, j) == Depth(txs, j)
    requires forall j :: Blocks(txs, j, i) ==> Level(txs, j) != Level(txs, i)
    requires forall j :: Blocks(txs, j, i) ==> Depth(txs, j) < Depth(txs, i)
    requires forall l: nat :: l < Level(txs, i) ==> HeldUpAt(txs, i, l)
    requires Level(txs, i) < Depth(txs, i) ==> BlockedAt(txs, i, Level(txs, i))
    ensures Level(txs, i) == Depth(txs, i)
  {
    hide Level, Depth, Blocks;
    if Depth(txs, i) < Level(txs, i) {
      assert HeldUpAt(txs, i, Depth(txs, i));
    }
  }

  lemma {:induction false} RisingLevelIsDepth(txs: seq<ParallelTx>, i: nat)
    requires T.Distinct(txs) && LevelsRise(txs) && i < |txs|
    ensures Level(txs, i) == Depth(txs, i)
    decreases i
  {
    hide Level;
    forall j | Blocks(txs, j, i)
      ensures Level(txs, j) == Depth(txs, j) < Level(txs, i)
    {
      RisingLevelIsDepth(txs, j);
      LevelIsFirstFree(txs, i);
    }
    LevelIsFirstFree(txs, i);
    DepthFromIs(txs, i, i);
    SameMex(txs, i);
  }

  /** First fit inverts no conflicting pair exactly when the block is layered. */
  lemma NoInversionIffLayered(txs: seq<ParallelTx>)
    requires T.Distinct(txs)
    ensures NoInversion(txs) <==> Layered(txs)
  {
    hide NoInversion, Level, Depth;
    NoInversionIsLevelsRise(txs);
    if Layered(txs) {
      forall i, j | Blocks(txs, j, i)
        ensures Level(txs, j) <= Level(txs, i)
      {
        LayeredLevelIsDepth(txs, i);
        LayeredLevelIsDepth(txs, j);
        DepthFromIs(txs, i, i);
        DepthUnfolds(txs, i);
      }
    }
    if LevelsRise(txs) {
      forall i, l: nat | 0 <= i < |txs| && l < Depth(txs, i)
        ensures BlockedAt(txs, i, l)
      {
        RisingLevelIsDepth(txs, i);
        LevelIsFirstFree(txs, i);
        assert HeldUpAt(txs, i, l);
        var j :| Blocks(txs, j, i) && Level(txs, j) == l;
        RisingLevelIsDepth(txs, j);
      }
    }
  }

  lemma DepthUnfolds(txs: seq<ParallelTx>, i: nat)
    requires i < |txs|
    ensures Depth(txs, i) == DepthFrom(txs, i, i)
  {
  }

  /** Running the groups in parallel agrees with block order, for every semantics that respects
      the footprints and every landing order of the writes, exactly for layered blocks. */
  lemma BlockOrderSafeIffLayered(txs: seq<ParallelTx>)
    requires T.Distinct(txs)
    ensures Layered(txs) <==>
            forall sem: T.Semantics, landings, r ::
              T.Respects(sem) && Schedules(landings, Grouping(txs))
              ==> RunGroups(sem, landings, r) == T.Serial(sem, txs, r)
  {
    NoInversionIffLayered(txs);
    BlockOrderSafeIffNoInversion(txs);
  }

  /** Blocks that are not layered exist, and three transactions make one. */
  lemma UnlayeredBlock() returns (txs: seq<ParallelTx>)
    ensures T.Distinct(txs) && !Layered(txs)
  {
    txs := FirstFitCanInvert();
    NoInversionIffLayered(txs);
  }
}
