/** The validator set: lookup, and changes that keep addresses distinct. */
module ValidatorSet {
  import opened Wrappers
  import opened Words

  datatype ValidatorType = ECDSA | BLS
  datatype Validator = Validator(addr: Address, validatorType: ValidatorType)

  datatype SetError = MismatchValidatorType | MismatchValidatorsType | ValidatorAlreadyExists | ValidatorNotFound

  ghost function Addresses(vs: seq<Validator>): set<Address>
  {
    set v | v in vs :: v.addr
  }

  ghost predicate DistinctAddresses(vs: seq<Validator>)
  {
    forall i, j :: 0 <= i < j < |vs| ==> vs[i].addr != vs[j].addr
  }

  /** The first position of the address, or -1. */
  function IndexOf(vs: seq<Validator>, a: Address): (r: int)
    ensures -1 <= r < |vs|
    ensures r >= 0 ==> vs[r].addr == a && forall i :: 0 <= i < r ==> vs[i].addr != a
    ensures r == -1 ==> forall i :: 0 <= i < |vs| ==> vs[i].addr != a
  {
    if vs == [] then -1
    else if vs[0].addr == a then 0
    else
      var r := IndexOf(vs[1..], a);
      if r == -1 then -1 else r + 1
  }

  /** ss's validators whose address is not there yet, appended in order. */
  function Merged(vs: seq<Validator>, ss: seq<Validator>): seq<Validator>
  {
    if ss == [] then vs else
      var m := Merged(vs, ss[..|ss| - 1]);
      var v := ss[|ss| - 1];
      if IndexOf(m, v.addr) != -1 then m else m + [v]
  }

  lemma AppendDistinct(vs: seq<Validator>, v: Validator)
    requires DistinctAddresses(vs) && IndexOf(vs, v.addr) == -1
    ensures DistinctAddresses(vs + [v]) && Addresses(vs + [v]) == Addresses(vs) + {v.addr}
  {
  }

  /** Merging keeps the addresses distinct, keeps what was there in place, and ends with the
      addresses of both. */
  lemma {:induction false} MergedIsUnion(vs: seq<Validator>, ss: seq<Validator>)
    requires DistinctAddresses(vs)
    ensures DistinctAddresses(Merged(vs, ss)) && vs <= Merged(vs, ss)
    ensures Addresses(Merged(vs, ss)) == Addresses(vs) + Addresses(ss)
  {
    if ss != [] {
      var n := |ss| - 1;
      MergedIsUnion(vs, ss[..n]);
      var m, v := Merged(vs, ss[..n]), ss[n];
      assert ss == ss[..n] + [v];
      assert Addresses(ss) == Addresses(ss[..n]) + {v.addr};
      if IndexOf(m, v.addr) == -1 {
        AppendDistinct(m, v);
      } else {
        assert m[IndexOf(m, v.addr)] in m;
        assert v.addr in Addresses(m);
      }
    }
  }

  lemma FirstInPrefix(ss: seq<Validator>, v: Validator, i: nat)
    requires i < |ss| && ss[i] == v && forall j :: 0 <= j < i ==> ss[j].addr != v.addr
    ensures IndexOf(ss, v.addr) == i
  {
    assert ss[i].addr == v.addr;
  }

  /** What merging appends are validators of ss, each the first one there under its address, in
      the order of ss. */
  lemma {:induction false} MergedAppendsFirsts(vs: seq<Validator>, ss: seq<Validator>)
    requires DistinctAddresses(vs)
    ensures vs <= Merged(vs, ss)
    ensures forall p :: |vs| <= p < |Merged(vs, ss)| ==> IsFirst(ss, Merged(vs, ss)[p])
    ensures forall p, q :: |vs| <= p < q < |Merged(vs, ss)| ==>
              IndexOf(ss, Merged(vs, ss)[p].addr) < IndexOf(ss, Merged(vs, ss)[q].addr)
  {
    if ss != [] {
      var n := |ss| - 1;
      var init, v := ss[..n], ss[n];
      MergedAppendsFirsts(vs, init);
      MergedIsUnion(vs, init);
      var m := Merged(vs, init);
      var after := Merged(vs, ss);
      assert after == if IndexOf(m, v.addr) != -1 then m else m + [v];
      hide Merged;
      forall p | |vs| <= p < |m|
        ensures IndexOf(ss, m[p].addr) == IndexOf(init, m[p].addr) < n && IsFirst(ss, m[p])
      {
        FirstInPrefix(ss, m[p], IndexOf(init, m[p].addr));
      }
      if IndexOf(m, v.addr) == -1 {
        NotBefore(init, m, v.addr);
        FirstInPrefix(ss, v, n);
      }
      hide IndexOf;
    }
  }

  /** The first validator under its address. */
  predicate IsFirst(ss: seq<Validator>, v: Validator)
  {
    IndexOf(ss, v.addr) >= 0 && ss[IndexOf(ss, v.addr)] == v
  }

  lemma NotBefore(ss: seq<Validator>, m: seq<Validator>, a: Address)
    requires Addresses(ss) <= Addresses(m) && IndexOf(m, a) == -1
    ensures forall j :: 0 <= j < |ss| ==> ss[j].addr != a
  {
    forall j | 0 <= j < |ss|
      ensures ss[j].addr != a
    {
      assert ss[j] in ss && ss[j].addr in Addresses(m);
    }
  }

  class Set {
    const validatorType: ValidatorType
    var validators: seq<Validator>

    constructor (validatorType: ValidatorType)
      ensures this.validatorType == validatorType && validators == []
    {
      this.validatorType := validatorType;
      validators := [];
    }

    method Index(a: Address) returns (r: int)
      ensures r == IndexOf(validators, a)
    {
      for i := 0 to |validators|
        invariant forall j :: 0 <= j < i ==> validators[j].addr != a
      {
        if validators[i].addr == a {
          return i;
        }
      }
      return -1;
    }

    /** Keeps the addresses distinct: a validator is appended only under a new address. */
    method Add(v: Validator) returns (error: Option<SetError>)
      modifies this
      ensures error == (if v.validatorType != validatorType then Some(MismatchValidatorType)
                        else if v.addr in Addresses(old(validators)) then Some(ValidatorAlreadyExists)
                        else None)
      ensures validators == if error.None? then old(validators) + [v] else old(validators)
      ensures DistinctAddresses(old(validators)) ==> DistinctAddresses(validators)
    {
      if validatorType != v.validatorType {
        return Some(MismatchValidatorType);
      }
      var i := Index(v.addr);
      if i != -1 {
        assert validators[i] in validators;
        return Some(ValidatorAlreadyExists);
      }
      validators := validators + [v];
      return None;
    }

    /** Removes the validator of that address and keeps the order of the others. */
    method Del(v: Validator) returns (error: Option<SetError>)
      modifies this
      ensures error == (if v.validatorType != validatorType then Some(MismatchValidatorType)
                        else if v.addr !in Addresses(old(validators)) then Some(ValidatorNotFound)
                        else None)
      ensures error.Some? ==> validators == old(validators)
      ensures error.None? ==> exists i :: 0 <= i < |old(validators)| && old(validators)[i].addr == v.addr
                                          && validators == old(validators)[..i] + old(validators)[i + 1..]
      ensures DistinctAddresses(old(validators)) ==> DistinctAddresses(validators)
      ensures DistinctAddresses(old(validators)) && error.None? ==> v.addr !in Addresses(validators)
    {
      if validatorType != v.validatorType {
        return Some(MismatchValidatorType);
      }
      var i := Index(v.addr);
      if i == -1 {
        return Some(ValidatorNotFound);
      }
      assert validators[i] in validators;
      validators := validators[..i] + validators[i + 1..];
      return None;
    }

    /** Merges all of ss, or stops before the first validator of another type whose address is
        new; sets of different types are not merged at all. */
    method Merge(ss: Set) returns (error: Option<SetError>)
      modifies this
      ensures error == Some(MismatchValidatorsType) <==> ss.validatorType != validatorType
      ensures error == Some(MismatchValidatorsType) ==> validators == old(validators)
      ensures error.Some? ==> error.value == MismatchValidatorsType || error.value == MismatchValidatorType
      ensures error.None? ==>
                && validators == Merged(old(validators), old(ss.validators))
                && forall k :: 0 <= k < |old(ss.validators)| ==>
                     !Refused(validatorType, old(validators), old(ss.validators), k)
      ensures error == Some(MismatchValidatorType) ==>
                exists i :: 0 <= i < |old(ss.validators)|
                            && Refused(validatorType, old(validators), old(ss.validators), i)
                            && validators == Merged(old(validators), old(ss.validators)[..i])
                            && forall k :: 0 <= k < i ==>
                                 !Refused(validatorType, old(validators), old(ss.validators), k)
    {
      hide IndexOf, Merged;
      ghost var others := ss.validators;
      if validatorType != ss.validatorType {
        return Some(MismatchValidatorsType);
      }
      MergedNone(validators, others);
      for i := 0 to |ss.validators|
        invariant ss.validators == others && i <= |others|
        invariant validators == Merged(old(validators), others[..i])
        invariant forall k :: 0 <= k < i ==> !Refused(validatorType, old(validators), others, k)
      {
        MergedStep(old(validators), others, i);
        var v := ss.validators[i];
        var at := Index(v.addr);
        IndexOfMember(validators, v.addr);
        if at != -1 {
          continue;
        }
        error := Add(v);
        if error.Some? {
          return;
        }
      }
      assert others[..|others|] == others;
      return None;
    }
  }

  /** The validator at position i of ss is of another type, and its address is new after those
      before it were merged. */
  ghost predicate Refused(validatorType: ValidatorType, vs: seq<Validator>, ss: seq<Validator>, i: nat)
    requires i < |ss|
  {
    ss[i].validatorType != validatorType && ss[i].addr !in Addresses(Merged(vs, ss[..i]))
  }

  lemma IndexOfMember(vs: seq<Validator>, a: Address)
    ensures IndexOf(vs, a) == -1 <==> a !in Addresses(vs)
  {
  }

  lemma MergedNone(vs: seq<Validator>, ss: seq<Validator>)
    ensures Merged(vs, ss[..0]) == vs
  {
  }

  lemma MergedStep(vs: seq<Validator>, ss: seq<Validator>, i: nat)
    requires i < |ss|
    ensures var m := Merged(vs, ss[..i]);
            Merged(vs, ss[..i + 1]) == if IndexOf(m, ss[i].addr) != -1 then m else m + [ss[i]]
  {
    assert ss[..i + 1][..i] == ss[..i];
  }
}
