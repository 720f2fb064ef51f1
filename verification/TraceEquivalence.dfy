/** Serial execution of transactions with declared footprints, and when two orders
    of the same transactions cannot be told apart. */
module TraceEquivalence {
  import opened Wrappers

  type Key = string

  /** The contents of the shared state; a key that was never written is absent. */
  type Store = map<Key, int>

  datatype Transaction = Transaction(hash: nat)

  /** A `*ParallelTx`. `ref` is the pointer: two list entries are equal exactly when they
      are the same pointer. */
  datatype ParallelTx = ParallelTx(ref: nat, tx: Option<Transaction>, readSet: seq<Key>, writeSet: seq<Key>)

  datatype Outcome = Outcome(writes: Store, result: int)

  /** What executing one transaction on a store does. */
  type Semantics = (ParallelTx, Store) -> Outcome

  /** The final store of a run and the result of each transaction in it. */
  datatype Run = Run(store: Store, results: map<ParallelTx, int>)

  /** True iff the two key lists share a key. */
  ghost predicate Intersects(a: seq<Key>, b: seq<Key>)
  {
    exists s :: s in a && s in b
  }

  /** Write-write or read-write overlap between two different transactions. */
  ghost predicate Conflicts(t: ParallelTx, u: ParallelTx)
  {
    && t != u
    && (|| Intersects(t.writeSet, u.writeSet)
        || Intersects(t.readSet, u.writeSet)
        || Intersects(t.writeSet, u.readSet))
  }

  ghost predicate Touches(t: ParallelTx, k: Key)
  {
    k in t.readSet || k in t.writeSet
  }

  /** The two stores look the same to transaction t. */
  ghost predicate Agree(t: ParallelTx, a: Store, b: Store)
  {
    forall k :: Touches(t, k) ==> (k in a <==> k in b) && (k in a ==> a[k] == b[k])
  }

  /** The semantics reads only declared keys and writes only declared write keys. */
  ghost predicate Respects(sem: Semantics)
  {
    && (forall t, s :: forall k :: k in sem(t, s).writes ==> k in t.writeSet)
    && (forall t, a, b :: Agree(t, a, b) ==> sem(t, a) == sem(t, b))
  }

  ghost predicate Distinct<T>(s: seq<T>)
  {
    forall i, j :: 0 <= i < j < |s| ==> s[i] != s[j]
  }

  /** Some occurrence of u precedes some occurrence of v. */
  ghost predicate Before<T>(s: seq<T>, u: T, v: T)
  {
    exists i, j :: 0 <= i < j < |s| && s[i] == u && s[j] == v
  }

  /** Every conflicting pair of b stands in the same order in a. */
  ghost predicate KeepsConflictOrder(a: seq<ParallelTx>, b: seq<ParallelTx>)
  {
    forall u, v :: Conflicts(u, v) && Before(b, u, v) ==> Before(a, u, v)
  }

  ghost function Step(sem: Semantics, t: ParallelTx, r: Run): Run
  {
    var o := sem(t, r.store);
    Run(r.store + o.writes, r.results[t := o.result])
  }

  /** Runs the list one transaction after the other, continuing the run r. */
  ghost function Serial(sem: Semantics, txs: seq<ParallelTx>, r: Run): Run
  {
    if txs == [] then r else Step(sem, txs[|txs| - 1], Serial(sem, txs[..|txs| - 1], r))
  }

  lemma ConflictsSymmetric(t: ParallelTx, u: ParallelTx)
    ensures Conflicts(t, u) <==> Conflicts(u, t)
  {
  }

  lemma {:induction false} SerialConcat(sem: Semantics, a: seq<ParallelTx>, b: seq<ParallelTx>, r: Run)
    ensures Serial(sem, a + b, r) == Serial(sem, b, Serial(sem, a, r))
  {
    if b == [] {
      assert a + b == a;
    } else {
      var n := |b| - 1;
      assert (a + b)[..|a + b| - 1] == a + b[..n];
      SerialConcat(sem, a, b[..n], r);
    }
  }

  /** Writes outside a transaction's footprint are invisible to it. */
  lemma AgreeAfterWrites(sem: Semantics, t: ParallelTx, u: ParallelTx, s: Store, base: Store)
    requires Respects(sem)
    requires t != u && !Conflicts(t, u)
    ensures Agree(t, s, s + sem(u, base).writes)
  {
    var w := sem(u, base).writes;
    forall k | Touches(t, k)
      ensures k !in w
    {
      assert k in w ==> k in u.writeSet;
    }
  }

  /** Two transactions that do not conflict commute. */
  lemma StepsCommute(sem: Semantics, t: ParallelTx, u: ParallelTx, r: Run)
    requires Respects(sem)
    requires t != u && !Conflicts(t, u)
    ensures Step(sem, u, Step(sem, t, r)) == Step(sem, t, Step(sem, u, r))
  {
    ConflictsSymmetric(t, u);
    var ot, ou := sem(t, r.store), sem(u, r.store);
    AgreeAfterWrites(sem, t, u, r.store, r.store);
    AgreeAfterWrites(sem, u, t, r.store, r.store);
    forall k | k in ot.writes
      ensures k !in ou.writes
    {
      assert k in t.writeSet;
      assert k in ou.writes ==> k in u.writeSet;
    }
    assert r.store + ot.writes + ou.writes == r.store + ou.writes + ot.writes;
    assert r.results[t := ot.result][u := ou.result] == r.results[u := ou.result][t := ot.result];
  }

  /** A transaction can be delayed past a list it does not conflict with. */
  lemma {:induction false} MoveLast(sem: Semantics, t: ParallelTx, ys: seq<ParallelTx>, r: Run)
    requires Respects(sem)
    requires forall i :: 0 <= i < |ys| ==> ys[i] != t && !Conflicts(t, ys[i])
    ensures Serial(sem, ys, Step(sem, t, r)) == Step(sem, t, Serial(sem, ys, r))
  {
    if ys != [] {
      var n := |ys| - 1;
      MoveLast(sem, t, ys[..n], r);
      hide Respects, Conflicts, Step;
      StepsCommute(sem, t, ys[n], Serial(sem, ys[..n], r));
    }
  }

  /** The list without its entry at p. */
  ghost function Without<T>(s: seq<T>, p: nat): seq<T>
    requires p < |s|
  {
    s[..p] + s[p + 1..]
  }

  lemma BeforeWithout<T>(s: seq<T>, p: nat, u: T, v: T)
    requires p < |s| && Before(Without(s, p), u, v)
    ensures Before(s, u, v)
  {
    var q := Without(s, p);
    var i, j :| 0 <= i < j < |q| && q[i] == u && q[j] == v;
    var i', j' := if i < p then i else i + 1, if j < p then j else j + 1;
    assert s[i'] == u && s[j'] == v;
  }

  lemma MembersWithout<T>(s: seq<T>, p: nat)
    requires p < |s|
    ensures multiset(Without(s, p)) == multiset(s) - multiset{s[p]}
  {
    assert s == s[..p] + [s[p]] + s[p + 1..];
  }

  lemma DistinctWithout<T>(s: seq<T>, p: nat)
    requires p < |s| && Distinct(s)
    ensures Distinct(Without(s, p)) && s[p] !in Without(s, p)
  {
    var q := Without(s, p);
    assert forall i :: 0 <= i < |q| ==> q[i] == s[if i < p then i else i + 1];
  }

  lemma SameMembers<T>(a: seq<T>, b: seq<T>, x: T)
    requires multiset(a) == multiset(b)
    ensures x in a <==> x in b
  {
    assert x in a <==> x in multiset(a);
    assert x in b <==> x in multiset(b);
  }

  /** Two orders of the same transactions that agree on every conflicting pair have the
      same final store and the same results. */
  lemma {:induction false} SameConflictOrderSameRun(sem: Semantics, a: seq<ParallelTx>, b: seq<ParallelTx>, r: Run)
    requires Respects(sem)
    requires Distinct(a) && Distinct(b) && multiset(a) == multiset(b)
    requires KeepsConflictOrder(a, b)
    ensures Serial(sem, a, r) == Serial(sem, b, r)
    decreases |a|
  {
    assert |a| == |multiset(a)| == |multiset(b)| == |b|;
    if a != [] {
      var n := |a| - 1;
      var t := a[n];
      SameMembers(a, b, t);
      var p :| 0 <= p < |b| && b[p] == t;
      assert Without(a, n) == a[..n];
      MembersWithout(a, n);
      MembersWithout(b, p);
      DistinctWithout(a, n);
      DistinctWithout(b, p);
      KeptWithout(a, b, p);
      NothingHeldUp(a, b, p);
      hide Distinct, KeepsConflictOrder, Without, Respects;
      DelayToEnd(sem, b, p, r);
      SameConflictOrderSameRun(sem, a[..n], Without(b, p), r);
    }
  }

  /** What conflicts with the last transaction of a stands before it in b. */
  lemma NothingHeldUp(a: seq<ParallelTx>, b: seq<ParallelTx>, p: nat)
    requires a != [] && p < |b| && b[p] == a[|a| - 1] && Distinct(a) && Distinct(b) && KeepsConflictOrder(a, b)
    ensures forall i :: p < i < |b| ==> b[i] != b[p] && !Conflicts(b[p], b[i])
  {
    forall i | p < i < |b|
      ensures !Conflicts(b[p], b[i])
    {
      assert Before(b, b[p], b[i]);
      assert !Before(a, b[p], b[i]);
    }
  }

  lemma DelayToEnd(sem: Semantics, b: seq<ParallelTx>, p: nat, r: Run)
    requires Respects(sem) && p < |b|
    requires forall i :: p < i < |b| ==> b[i] != b[p] && !Conflicts(b[p], b[i])
    ensures Serial(sem, b, r) == Step(sem, b[p], Serial(sem, Without(b, p), r))
  {
    var x, t, y := b[..p], b[p], b[p + 1..];
    assert b == x + [t] + y;
    SerialConcat(sem, x + [t], y, r);
    SerialConcat(sem, x, [t], r);
    SerialConcat(sem, x, y, r);
    assert [t][..0] == [];
    assert forall i :: 0 <= i < |y| ==> y[i] == b[p + 1 + i];
    hide Respects, Conflicts;
    MoveLast(sem, t, y, Serial(sem, x, r));
  }

  lemma KeptWithout(a: seq<ParallelTx>, b: seq<ParallelTx>, p: nat)
    requires a != [] && p < |b| && b[p] == a[|a| - 1] && Distinct(b)
    requires KeepsConflictOrder(a, b)
    ensures KeepsConflictOrder(a[..|a| - 1], Without(b, p))
  {
    var a', b' := a[..|a| - 1], Without(b, p);
    DistinctWithout(b, p);
    forall u, v | Conflicts(u, v) && Before(b', u, v)
      ensures Before(a', u, v)
    {
      BeforeWithout(b, p, u, v);
      assert u in b' && v in b';
      var i, j :| 0 <= i < j < |a| && a[i] == u && a[j] == v;
      assert a'[i] == u && a'[j] == v;
    }
  }

  /** No semantics that respects the footprints can tell the two orders apart. */
  ghost predicate Indistinguishable(a: seq<ParallelTx>, b: seq<ParallelTx>)
  {
    forall sem: Semantics, r: Run :: Respects(sem) ==> Serial(sem, a, r) == Serial(sem, b, r)
  }

  /** One transaction writes the key, another reports whether the key is there. */
  ghost function Probe(writer: ParallelTx, reader: ParallelTx, k: Key): Semantics
  {
    (t: ParallelTx, s: Store) =>
      if t == writer then Outcome(map[k := 1], 0)
      else Outcome(map[], if t == reader && k in s then 1 else 0)
  }

  lemma ProbeRespects(writer: ParallelTx, reader: ParallelTx, k: Key)
    requires k in writer.writeSet && Touches(reader, k)
    ensures Respects(Probe(writer, reader, k))
  {
  }

  lemma BeforeAppend<T>(s: seq<T>, x: T, u: T, v: T)
    ensures Before(s + [x], u, v) <==> Before(s, u, v) || (x == v && u in s)
  {
    var q := s + [x];
    if Before(s, u, v) {
      var i, j :| 0 <= i < j < |s| && s[i] == u && s[j] == v;
      assert q[i] == u && q[j] == v;
    }
    if x == v && u in s {
      var i :| 0 <= i < |s| && s[i] == u;
      assert q[i] == u && q[|s|] == v;
    }
    if Before(q, u, v) {
      var i, j :| 0 <= i < j < |q| && q[i] == u && q[j] == v;
      assert s[i] == u;
      assert j < |s| ==> s[j] == v;
    }
  }

  /** The reader sees the key exactly when the writer ran before it. */
  lemma {:induction false} ProbeResult(writer: ParallelTx, reader: ParallelTx, k: Key, txs: seq<ParallelTx>)
    requires writer != reader && Distinct(txs)
    ensures var run := Serial(Probe(writer, reader, k), txs, Run(map[], map[]));
            && (k in run.store <==> writer in txs)
            && (reader in txs ==> reader in run.results
                                  && run.results[reader] == if Before(txs, writer, reader) then 1 else 0)
  {
    if txs != [] {
      var n := |txs| - 1;
      var init, x := txs[..n], txs[n];
      ProbeResult(writer, reader, k, init);
      assert txs == init + [x];
      BeforeAppend(init, x, writer, reader);
      var prior := Serial(Probe(writer, reader, k), init, Run(map[], map[]));
      assert Serial(Probe(writer, reader, k), txs, Run(map[], map[])) == Step(Probe(writer, reader, k), x, prior);
      if x == reader {
        assert reader !in init;
        if Before(init, writer, reader) {
          assert false;
        }
      }
    }
  }

  /** A conflicting pair that the two orders run in opposite order shows in some run. */
  lemma InvertedPairShows(a: seq<ParallelTx>, b: seq<ParallelTx>, u: ParallelTx, v: ParallelTx)
    requires Distinct(a) && Distinct(b) && multiset(a) == multiset(b)
    requires Conflicts(u, v) && Before(b, u, v) && !Before(a, u, v)
    ensures !Indistinguishable(a, b)
  {
    assert u in b && v in b;
    SameMembers(a, b, u);
    SameMembers(a, b, v);
    assert Before(a, v, u) by {
      var i, j :| 0 <= i < |a| && 0 <= j < |a| && a[i] == u && a[j] == v;
      assert i != j;
      assert !(i < j);
    }
    var (writer, reader) := if exists k :: k in u.writeSet && Touches(v, k) then (u, v) else (v, u);
    var k :| k in writer.writeSet && Touches(reader, k);
    var sem, r := Probe(writer, reader, k), Run(map[], map[]);
    ProbeRespects(writer, reader, k);
    ProbeResult(writer, reader, k, a);
    ProbeResult(writer, reader, k, b);
    assert Serial(sem, a, r) != Serial(sem, b, r);
  }

  /** Exactly the orders that keep every conflicting pair are safe for every semantics. */
  lemma IndistinguishableIffConflictOrderKept(a: seq<ParallelTx>, b: seq<ParallelTx>)
    requires Distinct(a) && Distinct(b) && multiset(a) == multiset(b)
    ensures Indistinguishable(a, b) <==> KeepsConflictOrder(a, b)
  {
    if KeepsConflictOrder(a, b) {
      forall sem: Semantics, r: Run | Respects(sem)
        ensures Serial(sem, a, r) == Serial(sem, b, r)
      {
        SameConflictOrderSameRun(sem, a, b, r);
      }
    } else {
      var u, v :| Conflicts(u, v) && Before(b, u, v) && !Before(a, u, v);
      InvertedPairShows(a, b, u, v);
    }
  }
}
