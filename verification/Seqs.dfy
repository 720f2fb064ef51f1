/** Concatenation of lists of lists. */
module Seqs {
  ghost function Concat<T>(groups: seq<seq<T>>): seq<T>
  {
    if groups == [] then [] else groups[0] + Concat(groups[1..])
  }

  lemma {:induction false} ConcatAppend<T>(groups: seq<seq<T>>, g: seq<T>)
    ensures Concat(groups + [g]) == Concat(groups) + g
  {
    if groups == [] {
      assert groups + [g] == [g];
      assert Concat([g]) == g + Concat<T>([]);
    } else {
      assert (groups + [g])[1..] == groups[1..] + [g];
      ConcatAppend(groups[1..], g);
    }
  }

  lemma ConcatLast<T>(groups: seq<seq<T>>)
    requires groups != []
    ensures var n := |groups| - 1; Concat(groups) == Concat(groups[..n]) + groups[n]
  {
    var n := |groups| - 1;
    assert groups == groups[..n] + [groups[n]];
    ConcatAppend(groups[..n], groups[n]);
  }
}
