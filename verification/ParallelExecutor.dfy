/** First-fit grouping of transactions by declared state access, and execution of the
    groups one after the other with each group run in parallel. */
module ParallelExecutor {
  import opened Wrappers
  import T = TraceEquivalence
  import opened Seqs
  import opened Sets

  type ParallelTx = T.ParallelTx
  type Group = seq<ParallelTx>

  const ZERO_HASH: nat := 0

  datatype Failure = NilTransaction | ZeroHash | NilTransactionList

  datatype ExecutionResult = ExecutionResult(tx: ParallelTx, outcome: Result<nat, Failure>)

  ghost predicate ConflictsWithGroupSpec(t: ParallelTx, group: Group)
  {
    exists i :: 0 <= i < |group| && T.Conflicts(t, group[i])
  }

  /** The first group that t does not conflict with, or the number of groups. */
  ghost function FirstFit(groups: seq<Group>, t: ParallelTx): (k: nat)
    ensures k <= |groups|
    ensures forall j :: 0 <= j < k ==> ConflictsWithGroupSpec(t, groups[j])
    ensures k < |groups| ==> !ConflictsWithGroupSpec(t, groups[k])
  {
    if groups == [] || !ConflictsWithGroupSpec(t, groups[0]) then 0 else 1 + FirstFit(groups[1..], t)
  }

  ghost function Place(groups: seq<Group>, t: ParallelTx): seq<Group>
  {
    var k := FirstFit(groups, t);
    if k < |groups| then groups[k := groups[k] + [t]] else groups + [[t]]
  }

  /** The groups that first-fit makes of the list. */
  ghost function Grouping(txs: seq<ParallelTx>): seq<Group>
  {
    if txs == [] then [] else Place(Grouping(txs[..|txs| - 1]), txs[|txs| - 1])
  }

  ghost predicate ConflictFree(group: Group)
  {
    forall i, j :: 0 <= i < |group| && 0 <= j < |group| ==> !T.Conflicts(group[i], group[j])
  }

  // ---------------------------------------------------------------------------
  // What first-fit guarantees
  // ---------------------------------------------------------------------------

  lemma FirstFitUnique(groups: seq<Group>, t: ParallelTx, k: nat)
    requires k <= |groups|
    requires forall j :: 0 <= j < k ==> ConflictsWithGroupSpec(t, groups[j])
    requires k < |groups| ==> !ConflictsWithGroupSpec(t, groups[k])
    ensures FirstFit(groups, t) == k
  {
  }

  lemma {:induction false} ConcatUpdate(groups: seq<Group>, k: nat, t: ParallelTx)
    requires k < |groups|
    ensures multiset(Concat(groups[k := groups[k] + [t]])) == multiset(Concat(groups)) + multiset{t}
  {
    var groups' := groups[k := groups[k] + [t]];
    if k == 0 {
      assert groups'[1..] == groups[1..];
    } else {
      assert groups'[1..] == groups[1..][k - 1 := groups[1..][k - 1] + [t]];
      ConcatUpdate(groups[1..], k - 1, t);
    }
  }

  /** First-fit loses nothing and adds nothing. */
  lemma {:induction false} GroupingPartitions(txs: seq<ParallelTx>)
    ensures multiset(Concat(Grouping(txs))) == multiset(txs)
  {
    if txs != [] {
      var n := |txs| - 1;
      GroupingPartitions(txs[..n]);
      assert txs == txs[..n] + [txs[n]];
      var groups, t := Grouping(txs[..n]), txs[n];
      if FirstFit(groups, t) < |groups| {
        ConcatUpdate(groups, FirstFit(groups, t), t);
      } else {
        ConcatAppend(groups, [t]);
      }
    }
  }

  /** Members of a group never conflict, and no group is empty. */
  lemma {:induction false} GroupsAreConflictFree(txs: seq<ParallelTx>)
    ensures forall k :: 0 <= k < |Grouping(txs)| ==> Grouping(txs)[k] != [] && ConflictFree(Grouping(txs)[k])
  {
    if txs != [] {
      var n := |txs| - 1;
      GroupsAreConflictFree(txs[..n]);
      var groups, t := Grouping(txs[..n]), txs[n];
      var k := FirstFit(groups, t);
      if k < |groups| {
        var g := groups[k];
        forall i, j | 0 <= i < |g + [t]| && 0 <= j < |g + [t]|
          ensures !T.Conflicts((g + [t])[i], (g + [t])[j])
        {
          T.ConflictsSymmetric((g + [t])[i], (g + [t])[j]);
        }
      }
    }
  }

  /** Inside a group the input order is kept. */
  lemma {:induction false} GroupsKeepInputOrder(txs: seq<ParallelTx>, k: nat, i: nat, j: nat)
    requires k < |Grouping(txs)| && i < j < |Grouping(txs)[k]|
    ensures T.Before(txs, Grouping(txs)[k][i], Grouping(txs)[k][j])
  {
    var n := |txs| - 1;
    var init, t := txs[..n], txs[n];
    var groups, g := Grouping(init), Grouping(txs)[k];
    assert txs == init + [t];
    T.BeforeAppend(init, t, g[i], g[j]);
    if k < |groups| && j < |groups[k]| {
      GroupsKeepInputOrder(init, k, i, j);
    } else {
      assert g[i] in groups[k];
      MemberOfInput(init, k, g[i]);
    }
  }

  lemma {:induction false} MemberOfConcat(groups: seq<Group>, k: nat, t: ParallelTx)
    requires k < |groups| && t in groups[k]
    ensures t in Concat(groups)
  {
    if k > 0 {
      MemberOfConcat(groups[1..], k - 1, t);
    }
  }

  lemma MemberOfInput(txs: seq<ParallelTx>, k: nat, t: ParallelTx)
    requires k < |Grouping(txs)| && t in Grouping(txs)[k]
    ensures t in txs
  {
    MemberOfConcat(Grouping(txs), k, t);
    GroupingPartitions(txs);
    T.SameMembers(Concat(Grouping(txs)), txs, t);
  }

  /** A transaction is in group k only because every earlier group held an earlier
      conflicting transaction. */
  lemma {:induction false} EarlierGroupsBlocked(txs: seq<ParallelTx>, k: nat, j: nat, t: ParallelTx)
    requires j < k < |Grouping(txs)| && t in Grouping(txs)[k]
    ensures exists u :: u in Grouping(txs)[j] && T.Conflicts(t, u) && T.Before(txs, u, t)
  {
    var n := |txs| - 1;
    var init, last := txs[..n], txs[n];
    var groups := Grouping(init);
    assert txs == init + [last];
    assert j < |groups|;
    if k < |groups| && t in groups[k] {
      EarlierGroupsBlocked(init, k, j, t);
      var u :| u in groups[j] && T.Conflicts(t, u) && T.Before(init, u, t);
      T.BeforeAppend(init, last, u, t);
      assert u in Grouping(txs)[j];
    } else {
      assert t == last && k == FirstFit(groups, last);
      assert ConflictsWithGroupSpec(t, groups[j]);
      var i :| 0 <= i < |groups[j]| && T.Conflicts(t, groups[j][i]);
      MemberOfInput(init, j, groups[j][i]);
      T.BeforeAppend(init, last, groups[j][i], t);
      assert groups[j][i] in Grouping(txs)[j];
    }
  }

  // ---------------------------------------------------------------------------
  // How many groups
  // ---------------------------------------------------------------------------

  /** The transactions of the list that conflict with t. */
  ghost function Neighbours(txs: seq<ParallelTx>, t: ParallelTx): set<ParallelTx>
  {
    set u | u in txs && T.Conflicts(t, u)
  }

  lemma DistinctParts<X>(a: seq<X>, b: seq<X>, x: X)
    requires T.Distinct(a + b) && x in a
    ensures x !in b
  {
    var i :| 0 <= i < |a| && a[i] == x;
    forall j | 0 <= j < |b|
      ensures b[j] != x
    {
      assert (a + b)[i] != (a + b)[|a| + j];
    }
  }

  lemma {:induction false} ConcatDisjoint(groups: seq<Group>, j: nat, k: nat, t: ParallelTx)
    requires T.Distinct(Concat(groups))
    requires j < |groups| && k < |groups| && t in groups[j] && t in groups[k]
    ensures j == k
  {
    var rest := Concat(groups[1..]);
    assert Concat(groups) == groups[0] + rest;
    forall x, y | 0 <= x < y < |rest|
      ensures rest[x] != rest[y]
    {
      assert rest[x] == Concat(groups)[|groups[0]| + x] && rest[y] == Concat(groups)[|groups[0]| + y];
    }
    if j > 0 && k > 0 {
      ConcatDisjoint(groups[1..], j - 1, k - 1, t);
    } else if j != k {
      var m := if j > 0 then j else k;
      MemberOfConcat(groups[1..], m - 1, t);
      DistinctParts(groups[0], rest, t);
      assert false;
    }
  }

  lemma DistinctByMultiplicity<X>(s: seq<X>)
    ensures T.Distinct(s) <==> forall x :: x in s ==> multiset(s)[x] == 1
  {
    if T.Distinct(s) {
      forall x | x in s
        ensures multiset(s)[x] == 1
      {
        var i :| 0 <= i < |s| && s[i] == x;
        T.DistinctWithout(s, i);
        T.MembersWithout(s, i);
        assert multiset(T.Without(s, i))[x] == 0;
      }
    } else {
      var i, j :| 0 <= i < j < |s| && s[i] == s[j];
      assert s == s[..i] + [s[i]] + s[i + 1..j] + [s[j]] + s[j + 1..];
      assert multiset(s)[s[i]] >= 2;
    }
  }

  lemma DistinctPermutation<X>(a: seq<X>, b: seq<X>)
    requires T.Distinct(a) && multiset(a) == multiset(b)
    ensures T.Distinct(b)
  {
    DistinctByMultiplicity(a);
    DistinctByMultiplicity(b);
    forall x | x in b
      ensures multiset(b)[x] == 1
    {
      T.SameMembers(a, b, x);
    }
  }

  lemma GroupingDistinct(txs: seq<ParallelTx>)
    requires T.Distinct(txs)
    ensures T.Distinct(Concat(Grouping(txs)))
  {
    GroupingPartitions(txs);
    DistinctPermutation(txs, Concat(Grouping(txs)));
  }

  /** One conflicting transaction from each of the first m groups. */
  lemma {:induction false} Blockers(txs: seq<ParallelTx>, k: nat, m: nat, t: ParallelTx)
      returns (found: set<ParallelTx>)
    requires T.Distinct(txs) && m <= k < |Grouping(txs)| && t in Grouping(txs)[k]
    ensures |found| == m && found <= Neighbours(txs, t)
    ensures forall u :: u in found ==> exists j :: 0 <= j < m && u in Grouping(txs)[j]
  {
    hide Grouping, T.Distinct, T.Conflicts, Concat;
    if m == 0 {
      found := {};
    } else {
      var fewer := Blockers(txs, k, m - 1, t);
      EarlierGroupsBlocked(txs, k, m - 1, t);
      var u :| u in Grouping(txs)[m - 1] && T.Conflicts(t, u);
      MemberOfInput(txs, m - 1, u);
      GroupingDistinct(txs);
      if u in fewer {
        var j :| 0 <= j < m - 1 && u in Grouping(txs)[j];
        ConcatDisjoint(Grouping(txs), j, m - 1, u);
        assert false;
      }
      found := fewer + {u};
    }
  }

  /** At most one group more than the largest number of conflicts of a transaction. */
  lemma GroupCountBound(txs: seq<ParallelTx>, degree: nat)
    requires T.Distinct(txs)
    requires forall t :: t in txs ==> |Neighbours(txs, t)| <= degree
    ensures |Grouping(txs)| <= degree + 1
  {
    var groups := Grouping(txs);
    if groups != [] {
      var k := |groups| - 1;
      GroupsAreConflictFree(txs);
      var t := groups[k][0];
      MemberOfInput(txs, k, t);
      var found := Blockers(txs, k, k, t);
      SubsetSize(found, Neighbours(txs, t));
    }
  }

  // ---------------------------------------------------------------------------
  // Parallel groups against serial order
  // ---------------------------------------------------------------------------

  /** Every transaction runs on the store the group started from; the writes land in the
      order of the list. */
  ghost function Together(sem: T.Semantics, landing: Group, base: T.Store, r: T.Run): T.Run
  {
    if landing == [] then r else
      var t := landing[|landing| - 1];
      var p := Together(sem, landing[..|landing| - 1], base, r);
      var o := sem(t, base);
      T.Run(p.store + o.writes, p.results[t := o.result])
  }

  /** The groups one after the other, each in parallel with the given landing order. */
  ghost function RunGroups(sem: T.Semantics, landings: seq<Group>, r: T.Run): T.Run
  {
    if landings == [] then r else RunGroups(sem, landings[1..], Together(sem, landings[0], r.store, r))
  }

  /** Each landing order is some order of its group. */
  ghost predicate Schedules(landings: seq<Group>, groups: seq<Group>)
  {
    && |landings| == |groups|
    && forall k :: 0 <= k < |groups| ==> multiset(landings[k]) == multiset(groups[k])
  }

  lemma {:induction false} InvisibleToOutsider(sem: T.Semantics, t: ParallelTx, group: Group, r: T.Run)
    requires T.Respects(sem)
    requires forall i :: 0 <= i < |group| ==> group[i] != t && !T.Conflicts(t, group[i])
    ensures T.Agree(t, r.store, T.Serial(sem, group, r).store)
  {
    if group != [] {
      var n := |group| - 1;
      InvisibleToOutsider(sem, t, group[..n], r);
      var p := T.Serial(sem, group[..n], r);
      T.AgreeAfterWrites(sem, t, group[n], p.store, p.store);
    }
  }

  /** A conflict-free group run in parallel equals the same group run serially. */
  lemma {:induction false} TogetherIsSerial(sem: T.Semantics, group: Group, r: T.Run)
    requires T.Respects(sem) && T.Distinct(group) && ConflictFree(group)
    ensures Together(sem, group, r.store, r) == T.Serial(sem, group, r)
  {
    if group != [] {
      var n := |group| - 1;
      TogetherIsSerial(sem, group[..n], r);
      InvisibleToOutsider(sem, group[n], group[..n], r);
    }
  }

  lemma {:induction false} RunGroupsIsSerial(sem: T.Semantics, landings: seq<Group>, r: T.Run)
    requires T.Respects(sem)
    requires forall k :: 0 <= k < |landings| ==> T.Distinct(landings[k]) && ConflictFree(landings[k])
    ensures RunGroups(sem, landings, r) == T.Serial(sem, Concat(landings), r)
  {
    if landings != [] {
      TogetherIsSerial(sem, landings[0], r);
      RunGroupsIsSerial(sem, landings[1..], T.Serial(sem, landings[0], r));
      T.SerialConcat(sem, landings[0], Concat(landings[1..]), r);
    }
  }

  lemma PermutedGroup(landing: Group, group: Group)
    requires multiset(landing) == multiset(group)
    requires T.Distinct(group) && ConflictFree(group)
    ensures T.Distinct(landing) && ConflictFree(landing)
  {
    DistinctPermutation(group, landing);
    forall i, j | 0 <= i < |landing| && 0 <= j < |landing|
      ensures !T.Conflicts(landing[i], landing[j])
    {
      T.SameMembers(landing, group, landing[i]);
      T.SameMembers(landing, group, landing[j]);
    }
  }

  lemma {:induction false} ConcatSlice(groups: seq<Group>, k: nat)
    requires k < |groups| && T.Distinct(Concat(groups))
    ensures T.Distinct(groups[k])
  {
    var g, rest := groups[0], Concat(groups[1..]);
    forall i, j | 0 <= i < j < |rest|
      ensures rest[i] != rest[j]
    {
      assert rest[i] == Concat(groups)[|g| + i] && rest[j] == Concat(groups)[|g| + j];
    }
    if k == 0 {
      forall i, j | 0 <= i < j < |g|
        ensures g[i] != g[j]
      {
        assert g[i] == Concat(groups)[i] && g[j] == Concat(groups)[j];
      }
    } else {
      ConcatSlice(groups[1..], k - 1);
    }
  }

  lemma {:induction false} ConcatSameMultiset(a: seq<Group>, b: seq<Group>)
    requires Schedules(a, b)
    ensures multiset(Concat(a)) == multiset(Concat(b))
  {
    if a != [] {
      assert forall k :: 0 <= k < |b[1..]| ==> a[1..][k] == a[k + 1] && b[1..][k] == b[k + 1];
      ConcatSameMultiset(a[1..], b[1..]);
    }
  }

  /** Where the members of a pair stand when they come from different groups. */
  lemma {:induction false} ConcatOrder(groups: seq<Group>, p: nat, q: nat, u: ParallelTx, v: ParallelTx)
    requires p < q < |groups| && u in groups[p] && v in groups[q]
    ensures T.Before(Concat(groups), u, v)
  {
    var c, rest := Concat(groups), Concat(groups[1..]);
    assert c == groups[0] + rest;
    if p == 0 {
      MemberOfConcat(groups[1..], q - 1, v);
      var i :| 0 <= i < |groups[0]| && groups[0][i] == u;
      var j :| 0 <= j < |rest| && rest[j] == v;
      assert c[i] == u && c[|groups[0]| + j] == v;
    } else {
      ConcatOrder(groups[1..], p - 1, q - 1, u, v);
      var i, j :| 0 <= i < j < |rest| && rest[i] == u && rest[j] == v;
      assert c[|groups[0]| + i] == u && c[|groups[0]| + j] == v;
    }
  }

  lemma {:induction false} GroupOf(groups: seq<Group>, t: ParallelTx) returns (k: nat)
    requires t in Concat(groups)
    ensures k < |groups| && t in groups[k]
  {
    if t in groups[0] {
      k := 0;
    } else {
      k := GroupOf(groups[1..], t);
      k := k + 1;
    }
  }

  lemma DistinctOrder<X>(s: seq<X>, u: X, v: X)
    requires T.Distinct(s) && T.Before(s, u, v)
    ensures !T.Before(s, v, u)
  {
  }

  /** A conflicting pair keeps the order of its groups under every landing order. */
  lemma LandingsKeepOrder(landings: seq<Group>, groups: seq<Group>)
    requires Schedules(landings, groups) && T.Distinct(Concat(groups))
    requires forall k :: 0 <= k < |groups| ==> ConflictFree(groups[k])
    ensures T.KeepsConflictOrder(Concat(landings), Concat(groups))
  {
    forall u, v | T.Conflicts(u, v) && T.Before(Concat(groups), u, v)
      ensures T.Before(Concat(landings), u, v)
    {
      assert u in Concat(groups) && v in Concat(groups);
      var p := GroupOf(groups, u);
      var q := GroupOf(groups, v);
      assert p != q by {
        assert ConflictFree(groups[p]);
      }
      if q < p {
        ConcatOrder(groups, q, p, v, u);
        DistinctOrder(Concat(groups), u, v);
        assert false;
      }
      T.SameMembers(landings[p], groups[p], u);
      T.SameMembers(landings[q], groups[q], v);
      ConcatOrder(landings, p, q, u, v);
    }
  }

  /** Running the groups in parallel, under every landing order, is running the
      concatenated groups serially. */
  lemma GroupOrderEquivalence(sem: T.Semantics, txs: seq<ParallelTx>, landings: seq<Group>, r: T.Run)
    requires T.Respects(sem) && T.Distinct(txs)
    requires Schedules(landings, Grouping(txs))
    ensures RunGroups(sem, landings, r) == T.Serial(sem, Concat(Grouping(txs)), r)
  {
    var groups := Grouping(txs);
    GroupingDistinct(txs);
    GroupsAreConflictFree(txs);
    forall k | 0 <= k < |landings|
      ensures T.Distinct(landings[k]) && ConflictFree(landings[k])
    {
      ConcatSlice(groups, k);
      PermutedGroup(landings[k], groups[k]);
    }
    RunGroupsIsSerial(sem, landings, r);
    ConcatSameMultiset(landings, groups);
    DistinctPermutation(Concat(groups), Concat(landings));
    LandingsKeepOrder(landings, groups);
    T.SameConflictOrderSameRun(sem, Concat(landings), Concat(groups), r);
  }

  /** No transaction sits in an earlier group than a conflicting predecessor. */
  ghost predicate NoInversion(txs: seq<ParallelTx>)
  {
    forall u, v, p, q ::
      && 0 <= p < |Grouping(txs)| && 0 <= q < |Grouping(txs)|
      && u in Grouping(txs)[p] && v in Grouping(txs)[q]
      && T.Conflicts(u, v) && T.Before(txs, u, v)
      ==> p <= q
  }

  lemma NoInversionIsConflictOrder(txs: seq<ParallelTx>)
    requires T.Distinct(txs)
    ensures NoInversion(txs) <==> T.KeepsConflictOrder(Concat(Grouping(txs)), txs)
  {
    var groups := Grouping(txs);
    GroupingPartitions(txs);
    GroupingDistinct(txs);
    GroupsAreConflictFree(txs);
    if NoInversion(txs) {
      forall u, v | T.Conflicts(u, v) && T.Before(txs, u, v)
        ensures T.Before(Concat(groups), u, v)
      {
        T.SameMembers(Concat(groups), txs, u);
        T.SameMembers(Concat(groups), txs, v);
        assert u in txs && v in txs;
        var p := GroupOf(groups, u);
        var q := GroupOf(groups, v);
        assert p != q by {
          assert ConflictFree(groups[p]);
        }
        ConcatOrder(groups, p, q, u, v);
      }
    } else {
      var u, v, p, q :|
        && 0 <= p < |groups| && 0 <= q < |groups| && u in groups[p] && v in groups[q]
        && T.Conflicts(u, v) && T.Before(txs, u, v) && q < p;
      ConcatOrder(groups, q, p, v, u);
      DistinctOrder(Concat(groups), v, u);
    }
  }

  /** Group execution equals block order for every semantics and every landing order
      exactly when first-fit inverted no conflicting pair. */
  lemma BlockOrderSafeIffNoInversion(txs: seq<ParallelTx>)
    requires T.Distinct(txs)
    ensures NoInversion(txs) <==>
            forall sem: T.Semantics, landings, r ::
              T.Respects(sem) && Schedules(landings, Grouping(txs))
              ==> RunGroups(sem, landings, r) == T.Serial(sem, txs, r)
  {
    var groups := Grouping(txs);
    GroupingPartitions(txs);
    GroupingDistinct(txs);
    NoInversionIsConflictOrder(txs);
    T.IndistinguishableIffConflictOrderKept(Concat(groups), txs);
    forall sem: T.Semantics, landings, r | T.Respects(sem) && Schedules(landings, groups)
      ensures RunGroups(sem, landings, r) == T.Serial(sem, Concat(groups), r)
    {
      GroupOrderEquivalence(sem, txs, landings, r);
    }
    if !NoInversion(txs) {
      var sem: T.Semantics, r: T.Run :| T.Respects(sem) && T.Serial(sem, Concat(groups), r) != T.Serial(sem, txs, r);
      assert Schedules(groups, groups);
      assert RunGroups(sem, groups, r) != T.Serial(sem, txs, r);
    }
  }

  /** Whenever the middle of three transactions conflicts with both others, and those two
      do not conflict, first-fit runs the third before the second. */
  lemma PathOfConflictsInverts(x: ParallelTx, y: ParallelTx, z: ParallelTx)
    requires x != z && T.Conflicts(x, y) && T.Conflicts(y, z) && !T.Conflicts(x, z)
    ensures T.Distinct([x, y, z]) && !NoInversion([x, y, z])
  {
    T.ConflictsSymmetric(x, y);
    T.ConflictsSymmetric(x, z);
    var txs := [x, y, z];
    GroupingOfPair(x, y);
    assert txs[..2] == [x, y];
    assert !ConflictsWithGroupSpec(z, [x]);
    FirstFitUnique([[x], [y]], z, 0);
    var groups := Place([[x], [y]], z);
    assert Grouping(txs) == groups;
    assert z in groups[0] && y in groups[1];
    assert txs[1] == y && txs[2] == z;
    assert T.Before(txs, y, z);
  }

  lemma GroupingOfPair(x: ParallelTx, y: ParallelTx)
    requires T.Conflicts(y, x)
    ensures Grouping([x, y]) == [[x], [y]]
  {
    assert [x, y][..1] == [x] && [x][..0] == [];
    assert Grouping([x]) == Place([], x) == [[x]];
    assert T.Conflicts(y, [x][0]);
    assert ConflictsWithGroupSpec(y, [x]);
    FirstFitUnique([[x]], y, 1);
  }

  /** Such lists exist: write sets {a}, {a, b} and {b}. */
  lemma FirstFitCanInvert() returns (txs: seq<ParallelTx>)
    ensures T.Distinct(txs) && !NoInversion(txs)
  {
    var x := T.ParallelTx(0, None, [], ["a"]);
    var y := T.ParallelTx(1, None, [], ["a", "b"]);
    var z := T.ParallelTx(2, None, [], ["b"]);
    assert "a" in x.writeSet && "a" in y.writeSet;
    assert "b" in y.writeSet && "b" in z.writeSet;
    PathOfConflictsInverts(x, y, z);
    txs := [x, y, z];
  }

  // ---------------------------------------------------------------------------
  // The executor
  // ---------------------------------------------------------------------------

  /** Puts the shorter list into a set and scans the longer one. */
  method Intersects(a: seq<T.Key>, b: seq<T.Key>) returns (found: bool)
    ensures found <==> T.Intersects(a, b)
  {
    if |a| == 0 || |b| == 0 {
      return false;
    }
    var short, long := a, b;
    if |short| > |long| {
      short, long := long, short;
    }
    var keys := {};
    for i := 0 to |short|
      invariant forall s :: s in keys <==> s in short[..i]
    {
      keys := keys + {short[i]};
      assert short[..i + 1] == short[..i] + [short[i]];
    }
    assert short[..|short|] == short;
    for i := 0 to |long|
      invariant forall j :: 0 <= j < i ==> long[j] !in short
    {
      if long[i] in keys {
        assert long[i] in a && long[i] in b;
        return true;
      }
    }
    return false;
  }

  method ConflictCheck(t: ParallelTx, u: ParallelTx) returns (found: bool)
    ensures found <==> T.Conflicts(t, u)
  {
    if t == u {
      return false;
    }
    found := Intersects(t.writeSet, u.writeSet);
    if found {
      return true;
    }
    found := Intersects(t.readSet, u.writeSet);
    if !found {
      found := Intersects(t.writeSet, u.readSet);
    }
  }

  method ConflictsWithGroup(t: ParallelTx, group: Group) returns (found: bool)
    ensures found <==> ConflictsWithGroupSpec(t, group)
  {
    for i := 0 to |group|
      invariant forall j :: 0 <= j < i ==> !T.Conflicts(t, group[j])
    {
      found := ConflictCheck(t, group[i]);
      if found {
        return true;
      }
    }
    return false;
  }

  method GroupTransactions(txs: seq<ParallelTx>) returns (groups: seq<Group>)
    ensures groups == Grouping(txs)
  {
    groups := [];
    if |txs| == 0 {
      return;
    }
    for n := 0 to |txs|
      invariant groups == Grouping(txs[..n])
    {
      assert txs[..n + 1][..n] == txs[..n];
      var placed, k := false, 0;
      while k < |groups| && !placed
        invariant 0 <= k <= |groups|
        invariant forall j :: 0 <= j < k ==> ConflictsWithGroupSpec(txs[n], groups[j])
        invariant placed ==> k < |groups| && !ConflictsWithGroupSpec(txs[n], groups[k])
        decreases |groups| - k, !placed
      {
        var conflict := ConflictsWithGroup(txs[n], groups[k]);
        if conflict {
          k := k + 1;
        } else {
          placed := true;
        }
      }
      FirstFitUnique(groups, txs[n], k);
      groups := if placed then groups[k := groups[k] + [txs[n]]] else groups + [[txs[n]]];
    }
    assert txs[..|txs|] == txs;
  }

  /** Executes one transaction: a nil transaction or the zero hash is an error. */
  function ExecuteTx(t: ParallelTx): Result<nat, Failure>
  {
    if t.tx.None? then Result.Failure(NilTransaction)
    else if t.tx.value.hash == ZERO_HASH then Result.Failure(ZeroHash)
    else Success(t.tx.value.hash)
  }

  /** A transaction succeeds with its own hash, unless there is none or the hash is zero. */
  ghost predicate RightOutcome(r: ExecutionResult)
  {
    match r.outcome
    case Success(hash) => r.tx.tx.Some? && hash == r.tx.tx.value.hash != 0
    case Failure(error) =>
      if r.tx.tx.None? then error == NilTransaction else error == ZeroHash && r.tx.tx.value.hash == 0
  }

  method ExecuteBatch(group: Group) returns (results: seq<ExecutionResult>)
    ensures |results| == |group|
    ensures forall i :: 0 <= i < |group| ==> results[i].tx == group[i] && RightOutcome(results[i])
  {
    results := [];
    for i := 0 to |group|
      invariant |results| == i
      invariant forall j :: 0 <= j < i ==> results[j].tx == group[j] && RightOutcome(results[j])
    {
      results := results + [ExecutionResult(group[i], ExecuteTx(group[i]))];
    }
  }

  /** The entries of the list that are not nil and carry a transaction. */
  function ValidTxs(txs: seq<Option<ParallelTx>>): seq<ParallelTx>
  {
    if txs == [] then [] else
      var init, last := ValidTxs(txs[..|txs| - 1]), txs[|txs| - 1];
      if last.Some? && last.value.tx.Some? then init + [last.value] else init
  }

  /** The positions of the list that hold t, which carries a transaction. */
  ghost function Places(list: seq<Option<ParallelTx>>, t: ParallelTx): set<nat>
  {
    set p | 0 <= p < |list| && list[p] == Some(t) && t.tx.Some?
  }

  lemma {:induction false} ValidTxsCount(list: seq<Option<ParallelTx>>, t: ParallelTx)
    ensures multiset(ValidTxs(list))[t] == |Places(list, t)|
  {
    if list == [] {
      assert Places(list, t) == {};
    } else {
      var n := |list| - 1;
      ValidTxsCount(list[..n], t);
      var rest := Places(list[..n], t);
      assert Places(list, t) == if list[n] == Some(t) && t.tx.Some? then rest + {n} else rest;
    }
  }

  lemma {:induction false} KeptHaveTransaction(list: seq<Option<ParallelTx>>, t: ParallelTx)
    requires t in ValidTxs(list)
    ensures t.tx.Some?
  {
    ValidTxsCount(list, t);
    var p :| p in Places(list, t);
  }

  /** Position p of the list holds a transaction. */
  predicate Filled(list: seq<Option<ParallelTx>>, p: int)
  {
    0 <= p < |list| && list[p].Some? && list[p].value.tx.Some?
  }

  /** The transactions at the positions that home sends to group k, in the order of the list. */
  ghost function Members(list: seq<Option<ParallelTx>>, home: seq<nat>, k: nat): Group
    requires |home| == |list|
  {
    if list == [] then [] else
      var n := |list| - 1;
      var init := Members(list[..n], home[..n], k);
      if Filled(list, n) && home[n] == k then init + [list[n].value] else init
  }

  lemma {:induction false} MembersAre(list: seq<Option<ParallelTx>>, home: seq<nat>, k: nat, t: ParallelTx)
    requires |home| == |list|
    ensures t in Members(list, home, k) <==>
            exists p :: Filled(list, p) && home[p] == k && list[p].value == t
  {
    if list != [] {
      var n := |list| - 1;
      MembersAre(list[..n], home[..n], k, t);
      assert forall p :: p < n ==> Filled(list, p) == Filled(list[..n], p);
    }
  }

  /** Whoever is at p fits into its group: it conflicts with nobody there before it, and with
      somebody before it in each earlier group. */
  ghost predicate Fits(list: seq<Option<ParallelTx>>, home: seq<nat>, p: int)
    requires |home| == |list| && Filled(list, p)
  {
    && (forall q :: Filled(list, q) && q < p && home[q] == home[p] ==> !T.Conflicts(list[p].value, list[q].value))
    && (forall j :: 0 <= j < home[p] ==> Blocked(list, home, p, j))
  }

  ghost predicate Blocked(list: seq<Option<ParallelTx>>, home: seq<nat>, p: int, j: nat)
    requires |home| == |list| && Filled(list, p)
  {
    exists q :: Filled(list, q) && q < p && home[q] == j && T.Conflicts(list[p].value, list[q].value)
  }

  /** The groups are the members of their homes, and every position with a transaction has the
      first home it fits into. */
  ghost predicate FirstFitOf(list: seq<Option<ParallelTx>>, home: seq<nat>, groups: seq<Group>)
  {
    && |home| == |list|
    && (forall k :: 0 <= k < |groups| ==> groups[k] == Members(list, home, k) != [])
    && (forall p :: Filled(list, p) ==> home[p] < |groups| && Fits(list, home, p))
  }

  lemma ExtendFits(list: seq<Option<ParallelTx>>, home: seq<nat>, last: Option<ParallelTx>, k: nat, p: int)
    requires |home| == |list| && Filled(list, p) && Fits(list, home, p)
    ensures Filled(list + [last], p) && Fits(list + [last], home + [k], p)
  {
    var list', home' := list + [last], home + [k];
    assert forall q :: q < p ==> Filled(list', q) == Filled(list, q);
    forall j | 0 <= j < home[p]
      ensures Blocked(list', home', p, j)
    {
      assert Blocked(list, home, p, j);
      var q :| Filled(list, q) && q < p && home[q] == j && T.Conflicts(list[p].value, list[q].value);
      assert Filled(list', q);
    }
  }

  lemma MembersExtend(list: seq<Option<ParallelTx>>, home: seq<nat>, last: Option<ParallelTx>, at: nat, k: nat)
    requires |home| == |list|
    ensures Members(list + [last], home + [at], k) ==
            if last.Some? && last.value.tx.Some? && at == k then Members(list, home, k) + [last.value]
            else Members(list, home, k)
  {
    assert (list + [last])[..|list|] == list;
    assert (home + [at])[..|list|] == home;
  }

  /** The newcomer conflicts with a group exactly when it does with somebody at home there. */
  lemma ConflictAtHome(list: seq<Option<ParallelTx>>, home: seq<nat>, k: nat, t: ParallelTx)
    requires |home| == |list|
    ensures ConflictsWithGroupSpec(t, Members(list, home, k)) <==>
            exists q :: Filled(list, q) && home[q] == k && T.Conflicts(t, list[q].value)
  {
    var group := Members(list, home, k);
    if i :| 0 <= i < |group| && T.Conflicts(t, group[i]) {
      MembersAre(list, home, k, group[i]);
    }
    if q :| Filled(list, q) && home[q] == k && T.Conflicts(t, list[q].value) {
      MembersAre(list, home, k, list[q].value);
      var i :| 0 <= i < |group| && group[i] == list[q].value;
    }
  }

  lemma NewcomerFits(list: seq<Option<ParallelTx>>, home: seq<nat>, groups: seq<Group>, t: ParallelTx)
    requires FirstFitOf(list, home, groups) && t.tx.Some?
    ensures Fits(list + [Some(t)], home + [FirstFit(groups, t)], |list|)
  {
    var n, k := |list|, FirstFit(groups, t);
    var list', home' := list + [Some(t)], home + [k];
    assert forall q :: q < n ==> Filled(list', q) == Filled(list, q);
    if k < |groups| {
      ConflictAtHome(list, home, k, t);
    }
    forall j | 0 <= j < k
      ensures Blocked(list', home', n, j)
    {
      ConflictAtHome(list, home, j, t);
      var q :| Filled(list, q) && home[q] == j && T.Conflicts(t, list[q].value);
      assert Filled(list', q);
    }
  }

  lemma PlaceFits(list: seq<Option<ParallelTx>>, home: seq<nat>, groups: seq<Group>, t: ParallelTx)
    requires FirstFitOf(list, home, groups) && t.tx.Some?
    ensures FirstFitOf(list + [Some(t)], home + [FirstFit(groups, t)], Place(groups, t))
  {
    hide Members, Fits, ConflictsWithGroupSpec;
    var k := FirstFit(groups, t);
    var list', home', groups' := list + [Some(t)], home + [k], Place(groups, t);
    forall j | 0 <= j < |groups'|
      ensures groups'[j] == Members(list', home', j) != []
    {
      MembersExtend(list, home, Some(t), k, j);
      if j == |groups| {
        NoMembers(list, home, groups, j);
      }
    }
    forall p | Filled(list', p)
      ensures home'[p] < |groups'| && Fits(list', home', p)
    {
      if p < |list| {
        assert Filled(list, p);
        ExtendFits(list, home, Some(t), k, p);
      } else {
        NewcomerFits(list, home, groups, t);
      }
    }
  }

  lemma NoMembers(list: seq<Option<ParallelTx>>, home: seq<nat>, groups: seq<Group>, j: nat)
    requires FirstFitOf(list, home, groups) && j >= |groups|
    ensures Members(list, home, j) == []
  {
    if Members(list, home, j) != [] {
      MembersAre(list, home, j, Members(list, home, j)[0]);
    }
  }

  lemma SkipFits(list: seq<Option<ParallelTx>>, home: seq<nat>, groups: seq<Group>, last: Option<ParallelTx>)
    requires FirstFitOf(list, home, groups) && (last.None? || last.value.tx.None?)
    ensures FirstFitOf(list + [last], home + [0], groups)
  {
    hide Members, Fits;
    forall j | 0 <= j < |groups|
      ensures groups[j] == Members(list + [last], home + [0], j)
    {
      MembersExtend(list, home, last, 0, j);
    }
    forall p | Filled(list + [last], p)
      ensures home[p] < |groups| && Fits(list + [last], home + [0], p)
    {
      assert Filled(list, p);
      ExtendFits(list, home, last, 0, p);
    }
  }

  /** The groups of the kept entries are a first-fit of the positions of the list. */
  lemma {:induction false} GroupingIsFirstFit(list: seq<Option<ParallelTx>>) returns (home: seq<nat>)
    ensures FirstFitOf(list, home, Grouping(ValidTxs(list)))
  {
    if list == [] {
      return [];
    }
    var init, last := list[..|list| - 1], list[|list| - 1];
    home := GroupingIsFirstFit(init);
    assert list == init + [last];
    var groups := Grouping(ValidTxs(init));
    if last.Some? && last.value.tx.Some? {
      PlaceFits(init, home, groups, last.value);
      assert ValidTxs(list)[..|ValidTxs(init)|] == ValidTxs(init);
      hide FirstFitOf, Place;
      home := home + [FirstFit(groups, last.value)];
    } else {
      SkipFits(init, home, groups, last);
      home := home + [0];
    }
  }

  /** The executed transactions, in the order of the results. */
  function Executed(results: seq<ExecutionResult>): seq<ParallelTx>
  {
    seq(|results|, i requires 0 <= i < |results| => results[i].tx)
  }

  lemma ExecutedAppend(all: seq<ExecutionResult>, batch: seq<ExecutionResult>, group: Group)
    requires |batch| == |group| && forall i :: 0 <= i < |group| ==> batch[i].tx == group[i]
    ensures Executed(all + batch) == Executed(all) + group
  {
  }

  method KeepValid(list: seq<Option<ParallelTx>>) returns (valid: seq<ParallelTx>)
    ensures valid == ValidTxs(list)
  {
    valid := [];
    for i := 0 to |list|
      invariant valid == ValidTxs(list[..i])
    {
      assert list[..i + 1][..i] == list[..i];
      if list[i].Some? && list[i].value.tx.Some? {
        valid := valid + [list[i].value];
      }
    }
    assert list[..|list|] == list;
  }

  /** The executed groups one after the other, as a first-fit of the positions of the list. */
  ghost predicate ExecutedFirstFit(list: seq<Option<ParallelTx>>, executed: seq<ParallelTx>)
  {
    exists home, groups :: executed == Concat(groups) && FirstFitOf(list, home, groups)
  }

  lemma ExecutedRight(list: seq<Option<ParallelTx>>, all: seq<ExecutionResult>)
    requires Executed(all) == Concat(Grouping(ValidTxs(list)))
    requires forall i :: 0 <= i < |all| ==> RightOutcome(all[i])
    ensures ExecutedFirstFit(list, Executed(all))
    ensures forall t :: multiset(Executed(all))[t] == |Places(list, t)|
    ensures forall i :: 0 <= i < |all| ==>
              && all[i].tx.tx.Some?
              && (all[i].outcome.Success? <==> all[i].tx.tx.value.hash != 0)
              && (all[i].outcome.Success? ==> all[i].outcome.value == all[i].tx.tx.value.hash)
  {
    var valid := ValidTxs(list);
    GroupingPartitions(valid);
    hide Grouping, ValidTxs, Concat, FirstFitOf, Places;
    var home := GroupingIsFirstFit(list);
    forall t
      ensures multiset(Executed(all))[t] == |Places(list, t)|
    {
      ValidTxsCount(list, t);
    }
    forall i | 0 <= i < |all|
      ensures all[i].tx.tx.Some?
    {
      assert Executed(all)[i] == all[i].tx;
      assert all[i].tx in multiset(valid);
      KeptHaveTransaction(list, all[i].tx);
    }
  }

  /** Each entry that carries a transaction is executed exactly once, group after group and in
      the order of the list within a group; a nil list is an error. */
  method ExecuteTransactions(txs: Option<seq<Option<ParallelTx>>>) returns (r: Result<seq<ExecutionResult>, Failure>)
    ensures r.Failure? <==> txs.None?
    ensures r.Success? ==> Executed(r.value) == Concat(Grouping(ValidTxs(txs.value)))
    ensures r.Success? ==> ExecutedFirstFit(txs.value, Executed(r.value))
    ensures r.Success? ==> forall t :: multiset(Executed(r.value))[t] == |Places(txs.value, t)|
    ensures r.Success? ==> forall i :: 0 <= i < |r.value| ==>
              && r.value[i].tx.tx.Some?
              && (r.value[i].outcome.Success? <==> r.value[i].tx.tx.value.hash != 0)
              && (r.value[i].outcome.Success? ==> r.value[i].outcome.value == r.value[i].tx.tx.value.hash)
  {
    if txs.None? {
      return Result.Failure(NilTransactionList);
    }
    hide Grouping, ValidTxs, Concat, Places, ExecutedFirstFit, Executed, RightOutcome;
    var valid := KeepValid(txs.value);
    var groups := GroupTransactions(valid);
    var all := ExecuteGroups(groups);
    ExecutedRight(txs.value, all);
    return Success(all);
  }

  /** Runs the groups one after the other. */
  method ExecuteGroups(groups: seq<Group>) returns (all: seq<ExecutionResult>)
    ensures Executed(all) == Concat(groups)
    ensures forall i :: 0 <= i < |all| ==> RightOutcome(all[i])
  {
    hide RightOutcome;
    all := [];
    for k := 0 to |groups|
      invariant Executed(all) == Concat(groups[..k])
      invariant forall i :: 0 <= i < |all| ==> RightOutcome(all[i])
    {
      var batch := ExecuteBatch(groups[k]);
      ConcatAppend(groups[..k], groups[k]);
      assert groups[..k + 1] == groups[..k] + [groups[k]];
      ExecutedAppend(all, batch, groups[k]);
      all := all + batch;
    }
    assert groups[..|groups|] == groups;
  }
}
