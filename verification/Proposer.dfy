/** Round-robin choice of the proposer: which validators a window of rounds, and a chain of
    heights, pick. */
module Proposer {
  import opened ValidatorSet
  import opened Words
  import opened Sets

  /** What the last proposer adds to the round. */
  function Offset(vs: seq<Validator>, last: Address): (d: nat)
    ensures d <= |vs| || d == 1
  {
    if last == ZERO_ADDRESS then 0
    else if IndexOf(vs, last) != -1 then IndexOf(vs, last) + 1
    else 1
  }

  /** A 64-bit sum reduced to a position among n. */
  function Reduce(sum: nat, n: nat): nat
    requires n > 0
  {
    (sum % TWO64) % n
  }

  function PickIndex(vs: seq<Validator>, round: U64, last: Address): nat
    requires vs != []
  {
    Reduce(Offset(vs, last) + round, |vs|)
  }

  function CalcProposer(vs: seq<Validator>, round: U64, last: Address): Validator
    requires vs != []
  {
    vs[PickIndex(vs, round, last)]
  }

  // ---------------------------------------------------------------------------
  // Modular arithmetic
  // ---------------------------------------------------------------------------

  lemma MulAtLeast(q: int, n: nat)
    requires q >= 1
    ensures q * n >= n
  {
  }

  lemma ModOf(q: int, r: int, n: nat)
    requires 0 <= r < n
    ensures (q * n + r) % n == r
  {
    var x := q * n + r;
    var d := x / n - q;
    assert x == (x / n) * n + x % n;
    assert d * n == r - x % n;
    if d >= 1 {
      MulAtLeast(d, n);
    } else if d <= -1 {
      MulAtLeast(-d, n);
    }
  }

  lemma ModDistinct(a: int, b: int, n: nat)
    requires 0 < b - a < n
    ensures a % n != b % n
  {
    var r := a % n;
    var d := r + (b - a);
    assert b == (a / n) * n + d;
    if d < n {
      ModOf(a / n, d, n);
    } else {
      assert b == (a / n + 1) * n + (d - n);
      ModOf(a / n + 1, d - n, n);
    }
  }

  lemma ModMod(x: nat, n: nat)
    requires n > 0 && TWO64 % n == 0
    ensures Reduce(x, n) == x % n
  {
    var m, q, y := TWO64 / n, x / TWO64, x % TWO64;
    assert TWO64 == m * n && x == q * TWO64 + y && y == (y / n) * n + y % n;
    assert q * TWO64 == q * (m * n) == (q * m) * n;
    assert x == (q * m + y / n) * n + y % n;
    ModOf(q * m + y / n, y % n, n);
  }

  /** The sum passes the end of 64 bits strictly inside n steps. */
  predicate PassesEnd(sum: nat, n: nat) { sum < TWO64 < sum + n }

  lemma ReduceDistinct(sum: nat, n: nat, i: nat, j: nat)
    requires sum <= TWO64 && i < j < n <= TWO64 && (!PassesEnd(sum, n) || TWO64 % n == 0)
    ensures Reduce(sum + i, n) != Reduce(sum + j, n)
  {
    hide Reduce;
    ModDistinct(sum + i, sum + j, n);
    if TWO64 % n == 0 {
      ModMod(sum + i, n);
      ModMod(sum + j, n);
    } else if sum == TWO64 {
      EndSmall(sum, n, i, j);
    } else {
      ReduceSmall(sum + i, n);
      ReduceSmall(sum + j, n);
    }
  }

  lemma ReduceSmall(x: nat, n: nat)
    requires n > 0 && x < TWO64
    ensures Reduce(x, n) == x % n
  {
  }

  lemma EndSmall(sum: nat, n: nat, i: nat, j: nat)
    requires sum == TWO64 && i < j < n <= TWO64
    ensures Reduce(sum + i, n) != Reduce(sum + j, n)
  {
    assert (sum + i) % TWO64 == i && (sum + j) % TWO64 == j;
    ModDistinct(i, j, n);
  }

  /** Across the end of 64 bits two of n consecutive sums reduce to the same position, unless
      n divides 2^64. */
  lemma ReduceRepeats(sum: nat, n: nat) returns (i: nat, j: nat)
    requires n > 0 && PassesEnd(sum, n) && TWO64 % n != 0 && n <= TWO64
    ensures i < j < n && Reduce(sum + i, n) == Reduce(sum + j, n)
  {
    var w, c, q := TWO64 - sum, TWO64 % n, TWO64 / n;
    assert TWO64 == q * n + c;
    if c >= w {
      i, j := 0, c;
      ModOf(q, c - w, n);
      ModOf(0, c - w, n);
      assert sum == q * n + (c - w) && (sum + c) % TWO64 == c - w;
    } else {
      i, j := w - c, w;
      ModOf(q, 0, n);
      assert sum + (w - c) == q * n + 0 && (sum + w) % TWO64 == 0;
    }
  }

  // ---------------------------------------------------------------------------
  // A window of rounds
  // ---------------------------------------------------------------------------

  /** The next |vs| rounds pick pairwise different validators. */
  ghost predicate PicksEachOnce(vs: seq<Validator>, round: U64, last: Address)
    requires vs != []
  {
    forall r: U64, r': U64 :: round <= r < r' < round + |vs| ==> PickIndex(vs, r, last) != PickIndex(vs, r', last)
  }

  /** |vs| consecutive rounds pick every validator once, exactly when the 64-bit sum does not
      pass its end inside the window or the number of validators divides 2^64. */
  lemma WindowPicksEachOnceIff(vs: seq<Validator>, round: U64, last: Address)
    requires vs != [] && round + |vs| <= TWO64
    ensures PicksEachOnce(vs, round, last)
            <==> !PassesEnd(Offset(vs, last) + round, |vs|) || TWO64 % |vs| == 0
  {
    hide Reduce;
    var sum, n := Offset(vs, last) + round, |vs|;
    if !PassesEnd(sum, n) || TWO64 % n == 0 {
      forall r: U64, r': U64 | round <= r < r' < round + n
        ensures PickIndex(vs, r, last) != PickIndex(vs, r', last)
      {
        ReduceDistinct(sum, n, r - round, r' - round);
      }
    } else {
      var i, j := ReduceRepeats(sum, n);
      assert PickIndex(vs, round + i, last) == PickIndex(vs, round + j, last);
    }
  }

  function Below(n: nat): set<nat> { if n == 0 then {} else Below(n - 1) + {n - 1} }

  lemma {:induction false} BelowSize(n: nat)
    ensures |Below(n)| == n && forall x: nat :: x in Below(n) <==> x < n
  {
    if n > 0 {
      BelowSize(n - 1);
    }
  }

  lemma {:induction false} PickedSet(vs: seq<Validator>, round: U64, last: Address, k: nat) returns (s: set<nat>)
    requires vs != [] && round + |vs| <= TWO64 && PicksEachOnce(vs, round, last) && k <= |vs|
    ensures |s| == k
    ensures forall x :: x in s ==> x < |vs| && exists r: U64 :: round <= r < round + k && PickIndex(vs, r, last) == x
  {
    if k == 0 {
      s := {};
    } else {
      var fewer := PickedSet(vs, round, last, k - 1);
      var x := PickIndex(vs, round + (k - 1), last);
      s := fewer + {x};
    }
  }

  /** Different picks over the window leave nobody out. */
  lemma WindowLeavesNobodyOut(vs: seq<Validator>, round: U64, last: Address, m: nat)
    requires vs != [] && round + |vs| <= TWO64 && PicksEachOnce(vs, round, last) && m < |vs|
    ensures exists r: U64 :: round <= r < round + |vs| && PickIndex(vs, r, last) == m
  {
    var picked := PickedSet(vs, round, last, |vs|);
    BelowSize(|vs|);
    SubsetSize(picked, Below(|vs|));
    if m !in picked {
      SubsetSize(picked, Below(|vs|) - {m});
    }
  }

  // ---------------------------------------------------------------------------
  // A chain of heights
  // ---------------------------------------------------------------------------

  /** The proposer of round 0, height after height. */
  function Chain(vs: seq<Validator>, first: Address, height: nat): Address
    requires vs != []
  {
    if height == 0 then first else CalcProposer(vs, 0, Chain(vs, first, height - 1)).addr
  }

  ghost predicate ProperSet(vs: seq<Validator>)
  {
    && vs != [] && |vs| < TWO64 && DistinctAddresses(vs)
    && forall i :: 0 <= i < |vs| ==> vs[i].addr != ZERO_ADDRESS
  }

  /** The successor of validator i proposes next. */
  lemma NextProposer(vs: seq<Validator>, i: nat)
    requires ProperSet(vs) && i < |vs|
    ensures CalcProposer(vs, 0, vs[i].addr) == vs[if i + 1 < |vs| then i + 1 else 0]
  {
    assert Offset(vs, vs[i].addr) == i + 1 by {
      assert IndexOf(vs, vs[i].addr) == i;
    }
    hide Offset, Reduce;
    ReducePosition(i + 1, |vs|);
  }

  lemma ReducePosition(x: nat, n: nat)
    requires 0 < x <= n <= TWO64
    ensures Reduce(x, n) == if x < n then x else 0
  {
    if x < n {
      ModOf(0, x, n);
    } else {
      ModOf(1, 0, n);
    }
  }

  lemma ModSuccessor(x: nat, n: nat)
    requires n > 0
    ensures (x + 1) % n == if x % n + 1 < n then x % n + 1 else 0
  {
    var q, r := x / n, x % n;
    assert x + 1 == q * n + (r + 1);
    if r + 1 < n {
      ModOf(q, r + 1, n);
    } else {
      assert q * n + n == (q + 1) * n;
      ModOf(q + 1, 0, n);
    }
  }

  /** Starting from validator i, height k is proposed by validator i + k, cyclically. */
  lemma {:induction false} ChainIsCyclic(vs: seq<Validator>, i: nat, k: nat)
    requires ProperSet(vs) && i < |vs|
    ensures Chain(vs, vs[i].addr, k) == vs[(i + k) % |vs|].addr
  {
    hide CalcProposer, DistinctAddresses;
    var n := |vs|;
    if k == 0 {
      ModOf(0, i, n);
    } else {
      ChainIsCyclic(vs, i, k - 1);
      var x := i + (k - 1);
      var at := x % n;
      NextProposer(vs, at);
      ModSuccessor(x, n);
      assert (i + k) % n == (x + 1) % n;
    }
  }

  /** Without a last proposer round r picks validator r, cyclically; after one that is not in
      the set it picks one further. */
  lemma FirstProposer(vs: seq<Validator>, round: U64, last: Address)
    requires vs != []
    ensures last == ZERO_ADDRESS ==> CalcProposer(vs, round, last) == vs[round % |vs|]
    ensures last != ZERO_ADDRESS && round + 1 < TWO64 && (forall i :: 0 <= i < |vs| ==> vs[i].addr != last)
            ==> CalcProposer(vs, round, last) == vs[(round + 1) % |vs|]
  {
    ReduceSmall(round, |vs|);
    if round + 1 < TWO64 {
      ReduceSmall(round + 1, |vs|);
    }
  }

  /** From the zero address the first height is proposed by validator 0, from an address that is
      not in the set by validator 1, and then in turn. */
  lemma {:induction false} ChainFromOutside(vs: seq<Validator>, first: Address, k: nat)
    requires ProperSet(vs) && k > 0 && forall i :: 0 <= i < |vs| ==> vs[i].addr != first
    ensures Chain(vs, first, k) == vs[(if first == ZERO_ADDRESS then k - 1 else k) % |vs|].addr
  {
    hide CalcProposer, DistinctAddresses;
    FirstProposer(vs, 0, first);
    if k > 1 {
      ChainFromOutside(vs, first, k - 1);
      var x := if first == ZERO_ADDRESS then k - 2 else k - 1;
      NextProposer(vs, x % |vs|);
      ModSuccessor(x, |vs|);
    } else {
      assert Chain(vs, first, 0) == first;
    }
  }

  /** Any |vs| consecutive heights have different proposers. */
  lemma ChainVisitsAll(vs: seq<Validator>, i: nat, k: nat, a: nat, b: nat)
    requires ProperSet(vs) && i < |vs| && a < b < |vs|
    ensures Chain(vs, vs[i].addr, k + a) != Chain(vs, vs[i].addr, k + b)
  {
    hide Chain;
    var n := |vs|;
    ChainIsCyclic(vs, i, k + a);
    ChainIsCyclic(vs, i, k + b);
    var x, y := (i + (k + a)) % n, (i + (k + b)) % n;
    ModDistinct(i + (k + a), i + (k + b), n);
    assert vs[x].addr != vs[y].addr;
  }
}
