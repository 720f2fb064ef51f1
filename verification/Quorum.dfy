/** IBFT quorum sizes and what they are for: two quorums share an honest validator, and the
    honest validators alone can form one. */
module Quorum {
  import opened Words
  import opened Sets

  type Hash = nat

  /** Go's division truncates, so no validators means no faulty ones. */
  function CalcMaxFaultyNodes(n: nat): nat { if n == 0 then 0 else (n - 1) / 3 }

  function LegacyQuorumSize(n: nat): nat { 2 * CalcMaxFaultyNodes(n) + 1 }

  /** The ceiling of 2n/3 once a fault is tolerated, else everyone. */
  function OptimalQuorumSize(n: nat): nat
  {
    if CalcMaxFaultyNodes(n) == 0 then n else (2 * n + 2) / 3
  }

  /** The set and the faulty ones among it. */
  ghost predicate Faults(validators: set<Address>, faulty: set<Address>)
  {
    faulty <= validators && |faulty| <= CalcMaxFaultyNodes(|validators|)
  }

  ghost predicate IsQuorum(validators: set<Address>, size: nat, q: set<Address>)
  {
    q <= validators && |q| >= size
  }

  /** Any two quorums of this size share an honest validator, whoever is faulty. */
  ghost predicate Intersecting(validators: set<Address>, size: nat)
  {
    forall a, b, faulty ::
      IsQuorum(validators, size, a) && IsQuorum(validators, size, b) && Faults(validators, faulty)
      ==> a * b - faulty != {}
  }

  lemma {:induction false} SubsetOfSize(s: set<Address>, k: nat) returns (sub: set<Address>)
    requires k <= |s|
    ensures sub <= s && |sub| == k
  {
    if k == 0 {
      sub := {};
    } else {
      var x :| x in s;
      sub := SubsetOfSize(s - {x}, k - 1);
      sub := sub + {x};
    }
  }

  lemma DifferenceSize(a: set<Address>, b: set<Address>)
    ensures |a - b| >= |a| - |b|
  {
    SubsetSize(a * b, b);
    assert a == (a - b) + a * b;
  }

  lemma OverlapSize(validators: set<Address>, a: set<Address>, b: set<Address>)
    requires a <= validators && b <= validators
    ensures |a * b| >= |a| + |b| - |validators|
  {
    SubsetSize(a + b, validators);
    assert |a + b| + |a * b| == |a| + |b|;
  }

  /** A size has the intersection property exactly when twice it exceeds n + f. */
  lemma IntersectingIff(validators: set<Address>, size: nat)
    requires size <= |validators|
    ensures Intersecting(validators, size) <==> 2 * size > |validators| + CalcMaxFaultyNodes(|validators|)
  {
    var n, f := |validators|, CalcMaxFaultyNodes(|validators|);
    if 2 * size > n + f {
      forall a, b, faulty | IsQuorum(validators, size, a) && IsQuorum(validators, size, b) && Faults(validators, faulty)
        ensures a * b - faulty != {}
      {
        OverlapSize(validators, a, b);
        DifferenceSize(a * b, faulty);
      }
    } else {
      var a, b, faulty := SplitQuorums(validators, size);
      assert a * b - faulty == {};
    }
  }

  /** Two quorums of a size that is too small, meeting in faulty validators only. */
  lemma SplitQuorums(validators: set<Address>, size: nat)
      returns (a: set<Address>, b: set<Address>, faulty: set<Address>)
    requires size <= |validators| && 2 * size <= |validators| + CalcMaxFaultyNodes(|validators|)
    ensures IsQuorum(validators, size, a) && IsQuorum(validators, size, b) && Faults(validators, faulty)
    ensures a * b <= faulty
  {
    a := SubsetOfSize(validators, size);
    var rest := validators - a;
    assert |rest| == |validators| - size;
    if size <= |rest| {
      b := SubsetOfSize(rest, size);
      faulty := {};
    } else {
      faulty := SubsetOfSize(a, size - |rest|);
      b := rest + faulty;
      assert |b| == |rest| + |faulty|;
    }
  }

  /** The optimal size intersects for every non-empty set; and it is the least such size,
      except for three validators, where two would do. */
  lemma OptimalQuorumIntersects(validators: set<Address>)
    requires validators != {}
    ensures Intersecting(validators, OptimalQuorumSize(|validators|))
    ensures (forall size: nat :: size < OptimalQuorumSize(|validators|) ==> !Intersecting(validators, size))
            <==> |validators| != 3
  {
    var n := |validators|;
    assert n > 0 by {
      var x :| x in validators;
      SubsetSize({x}, validators);
    }
    IntersectingIff(validators, OptimalQuorumSize(n));
    forall size: nat | size < OptimalQuorumSize(n)
      ensures Intersecting(validators, size) <==> n == 3 && size == 2
    {
      IntersectingIff(validators, size);
    }
    if n == 3 {
      assert 2 < OptimalQuorumSize(n) && Intersecting(validators, 2);
    }
  }

  /** The legacy size intersects exactly when n is one more than a multiple of three. */
  lemma LegacyQuorumIntersectsIff(validators: set<Address>)
    requires validators != {}
    ensures Intersecting(validators, LegacyQuorumSize(|validators|)) <==> |validators| % 3 == 1
  {
    var n := |validators|;
    assert n > 0 by {
      var x :| x in validators;
      SubsetSize({x}, validators);
    }
    IntersectingIff(validators, LegacyQuorumSize(n));
  }

  /** The honest validators alone reach either quorum. */
  lemma HonestReachQuorum(validators: set<Address>, faulty: set<Address>)
    requires validators != {} && Faults(validators, faulty)
    ensures IsQuorum(validators, OptimalQuorumSize(|validators|), validators - faulty)
    ensures IsQuorum(validators, LegacyQuorumSize(|validators|), validators - faulty)
  {
    var n := |validators|;
    assert n > 0 by {
      var x :| x in validators;
      SubsetSize({x}, validators);
    }
    assert |validators - faulty| == n - |faulty|;
  }

  datatype Commit = Commit(voter: Address, hash: Hash)

  /** The validators that committed to the hash. */
  ghost function Certificate(votes: set<Commit>, validators: set<Address>, hash: Hash): set<Address>
  {
    set v | v in validators && Commit(v, hash) in votes
  }

  /** Whoever is not faulty commits to one hash at most. */
  ghost predicate HonestVoteOnce(votes: set<Commit>, validators: set<Address>, faulty: set<Address>)
  {
    forall v, h, h' :: v in validators && v !in faulty && Commit(v, h) in votes && Commit(v, h') in votes ==> h == h'
  }

  /** Two commit certificates of optimal size name the same hash. */
  lemma CertificatesAgree(validators: set<Address>, faulty: set<Address>, votes: set<Commit>, h: Hash, h': Hash)
    requires validators != {} && Faults(validators, faulty) && HonestVoteOnce(votes, validators, faulty)
    requires IsQuorum(validators, OptimalQuorumSize(|validators|), Certificate(votes, validators, h))
    requires IsQuorum(validators, OptimalQuorumSize(|validators|), Certificate(votes, validators, h'))
    ensures h == h'
  {
    OptimalQuorumIntersects(validators);
    var a, b := Certificate(votes, validators, h), Certificate(votes, validators, h');
    assert a * b - faulty != {};
    var v :| v in a * b - faulty;
  }
}
