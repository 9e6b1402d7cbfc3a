/** The recursive permutation of `icu/common/caniter.cpp`. */
module Permutations {
  import opened Common
  import opened ErrorCodes

  const PERMUTE_DEPTH_LIMIT := 8

  function Remove<T>(s: seq<T>, i: nat): (r: seq<T>)
    requires i < |s|
    ensures |r| == |s| - 1 && forall k :: 0 <= k < |r| ==> r[k] == s[if k < i then k else k + 1]
  {
    s[..i] + s[i + 1..]
  }

  /** The character at `i` may come first: one of combining class zero only if it is first already. */
  predicate MayLead(source: seq<int>, i: nat, skipZeros: bool, ccc: int -> nat)
    requires i < |source|
  {
    !(skipZeros && i != 0 && ccc(source[i]) == 0)
  }

  /** The strings that the permutation finds. */
  ghost function Permuted(source: seq<int>, skipZeros: bool, ccc: int -> nat): set<seq<int>>
    decreases |source|
  {
    if |source| <= 1 then {source}
    else LedBefore(source, |source|, skipZeros, ccc)
  }

  /** Those of them that begin with one of the first `n` characters. */
  ghost function LedBefore(source: seq<int>, n: nat, skipZeros: bool, ccc: int -> nat): set<seq<int>>
    requires n <= |source| && 2 <= |source|
    decreases |source|, n
  {
    if n == 0 then {}
    else
      LedBefore(source, n - 1, skipZeros, ccc) +
      if MayLead(source, n - 1, skipZeros, ccc) then
        Prefixed(source[n - 1], Permuted(Remove(source, n - 1), skipZeros, ccc)) else {}
  }

  ghost function Prefixed(c: int, strings: set<seq<int>>): set<seq<int>> {
    set t | t in strings :: [c] + t
  }

  lemma {:induction false} LedBeforeIs(source: seq<int>, n: nat, skipZeros: bool, ccc: int -> nat, t: seq<int>)
    requires n <= |source| && 2 <= |source|
    ensures t in LedBefore(source, n, skipZeros, ccc) <==>
            exists i: nat :: i < n && LeadsTo(source, i, skipZeros, ccc, t)
    decreases n
  {
    if n > 0 {
      LedBeforeIs(source, n - 1, skipZeros, ccc, t);
      var strings := Permuted(Remove(source, n - 1), skipZeros, ccc);
      if MayLead(source, n - 1, skipZeros, ccc) && t in Prefixed(source[n - 1], strings) {
        var rest :| rest in strings && t == [source[n - 1]] + rest;
        assert t[1..] == rest;
        assert LeadsTo(source, n - 1, skipZeros, ccc, t);
      }
      if LeadsTo(source, n - 1, skipZeros, ccc, t) {
        assert t == [source[n - 1]] + t[1..];
      }
    }
  }

  /** String `t` consists of the character at `i`, which may come first, and a permutation of the others. */
  ghost predicate LeadsTo(source: seq<int>, i: nat, skipZeros: bool, ccc: int -> nat, t: seq<int>)
    requires i < |source|
    decreases |source|, 0
  {
    MayLead(source, i, skipZeros, ccc) && t != [] && t[0] == source[i] &&
    t[1..] in Permuted(Remove(source, i), skipZeros, ccc)
  }

  /**
   Adds all permutations of a string to the result; with `skipZeros`, without moving characters
   of combining class zero before others. Fails if the recursion becomes too deep.
   */
  method Permute(source: seq<int>, skipZeros: bool, ccc: int -> nat, before: set<seq<int>>, errorCode: ErrorCode,
                 depth: nat)
    returns (result: set<seq<int>>, status: ErrorCode)
    ensures status ==
            if errorCode.Failure() then errorCode
            else if depth > PERMUTE_DEPTH_LIMIT || depth + |source| - 1 > PERMUTE_DEPTH_LIMIT then UnsupportedError
            else errorCode
    ensures !status.Failure() ==> result == before + Permuted(source, skipZeros, ccc)
    decreases |source|
  {
    result, status := before, errorCode;
    if errorCode.Failure() {
      return;
    }
    if depth > PERMUTE_DEPTH_LIMIT {
      status := UnsupportedError;
      return;
    }
    if |source| <= 1 {
      result := result + {source};
      return;
    }
    for i := 0 to |source|
      invariant status == errorCode && result == before + LedBefore(source, i, skipZeros, ccc)
      invariant 0 < i ==> depth + |source| - 1 <= PERMUTE_DEPTH_LIMIT
    {
      var cp := source[i];
      if skipZeros && i != 0 && ccc(cp) == 0 {
        continue;
      }
      var subpermute;
      subpermute, status := Permute(Remove(source, i), skipZeros, ccc, {}, status, depth + 1);
      if status.Failure() {
        return;
      }
      result := PutPrefixed(cp, subpermute, result);
    }
  }

  method PutPrefixed(cp: int, subpermute: set<seq<int>>, before: set<seq<int>>) returns (result: set<seq<int>>)
    ensures result == before + Prefixed(cp, subpermute)
  {
    result := before;
    var left := subpermute;
    while left != {}
      invariant left <= subpermute
      invariant result == before + Prefixed(cp, subpermute - left)
      decreases |left|
    {
      var permRes :| permRes in left;
      assert Prefixed(cp, subpermute - (left - {permRes})) == Prefixed(cp, subpermute - left) + {[cp] + permRes};
      left := left - {permRes};
      result := result + {[cp] + permRes};
    }
    assert subpermute - left == subpermute;
  }

  // ----- what the permutation finds

  /** `order` lists the indexes of the source in the order in which they are taken. */
  ghost predicate IsOrder(order: seq<nat>, n: nat) {
    |order| == n && (forall k :: 0 <= k < n ==> order[k] < n) &&
    forall k, l :: 0 <= k < n && 0 <= l < n && order[k] == order[l] ==> k == l
  }

  /** Every character of combining class zero still follows all characters that preceded it in the source. */
  ghost predicate KeepsZeros(source: seq<int>, order: seq<nat>, ccc: int -> nat)
    requires IsOrder(order, |source|)
  {
    forall k, l :: 0 <= k < l < |source| && ccc(source[order[k]]) == 0 ==> order[k] < order[l]
  }

  ghost predicate IsReordering(source: seq<int>, order: seq<nat>, skipZeros: bool, ccc: int -> nat, t: seq<int>) {
    IsOrder(order, |source|) && (skipZeros ==> KeepsZeros(source, order, ccc)) &&
    |t| == |source| && forall k :: 0 <= k < |t| ==> t[k] == source[order[k]]
  }

  /** An order of all but one index, as an order of all of them. */
  ghost function Lift(order: seq<nat>, i: nat): (r: seq<nat>) {
    [i] + seq(|order|, k requires 0 <= k < |order| => if order[k] < i then order[k] else order[k] + 1)
  }

  ghost function Lower(order: seq<nat>): (r: seq<nat>)
    requires order != [] && forall k :: 1 <= k < |order| ==> order[k] != order[0]
  {
    seq(|order| - 1, k requires 0 <= k < |order| - 1 => if order[k + 1] < order[0] then order[k + 1]
        else order[k + 1] - 1)
  }

  ghost function Indexes(n: nat): (r: set<nat>)
    ensures |r| == n && forall k: nat :: k in r <==> k < n
  {
    if n == 0 then {} else Indexes(n - 1) + {n - 1}
  }

  ghost function Taken(order: seq<nat>, n: nat): (r: set<nat>)
    requires n <= |order|
    ensures forall k :: 0 <= k < n ==> order[k] in r
    ensures forall i :: i in r ==> exists k :: 0 <= k < n && order[k] == i
  {
    if n == 0 then {} else Taken(order, n - 1) + {order[n - 1]}
  }

  lemma {:induction false} TakenSize(order: seq<nat>, n: nat)
    requires n <= |order| && forall k, l :: 0 <= k < n && 0 <= l < n && order[k] == order[l] ==> k == l
    ensures |Taken(order, n)| == n
  {
    if n > 0 {
      TakenSize(order, n - 1);
    }
  }

  /** An order takes every index. */
  lemma EveryIndexIsTaken(order: seq<nat>, n: nat, i: nat)
    requires IsOrder(order, n) && i < n
    ensures exists k :: 0 <= k < n && order[k] == i
  {
    TakenSize(order, n);
    if i !in Taken(order, n) {
      SubsetSize(Taken(order, n), Indexes(n) - {i});
    }
  }

  lemma LiftIsOrder(order: seq<nat>, n: nat, i: nat)
    requires IsOrder(order, n) && i <= n
    ensures IsOrder(Lift(order, i), n + 1)
    ensures forall k, l :: 1 <= k <= n && 1 <= l <= n && order[k - 1] < order[l - 1] ==>
              Lift(order, i)[k] < Lift(order, i)[l]
  {
  }

  lemma LiftReorders(source: seq<int>, i: nat, order: seq<nat>, skipZeros: bool, ccc: int -> nat, t: seq<int>)
    requires i < |source| && t != [] && t[0] == source[i] && MayLead(source, i, skipZeros, ccc)
    requires IsReordering(Remove(source, i), order, skipZeros, ccc, t[1..])
    ensures IsReordering(source, Lift(order, i), skipZeros, ccc, t)
  {
    var lifted := Lift(order, i);
    var rest := Remove(source, i);
    LiftIsOrder(order, |rest|, i);
    forall k | 0 <= k < |t|
      ensures t[k] == source[lifted[k]]
    {
      if k > 0 {
        assert t[k] == t[1..][k - 1] == rest[order[k - 1]];
      }
    }
    if skipZeros {
      LiftKeepsZeros(source, i, order, ccc);
    }
  }

  lemma LiftKeepsZeros(source: seq<int>, i: nat, order: seq<nat>, ccc: int -> nat)
    requires i < |source| && MayLead(source, i, true, ccc)
    requires IsOrder(order, |source| - 1) && KeepsZeros(Remove(source, i), order, ccc)
    ensures IsOrder(Lift(order, i), |source|) && KeepsZeros(source, Lift(order, i), ccc)
  {
    var lifted, rest := Lift(order, i), Remove(source, i);
    LiftIsOrder(order, |rest|, i);
    forall k, l | 0 <= k < l < |source| && ccc(source[lifted[k]]) == 0
      ensures lifted[k] < lifted[l]
    {
      if k > 0 {
        assert rest[order[k - 1]] == source[lifted[k]];
        assert order[k - 1] < order[l - 1];
      }
    }
  }

  lemma LowerReorders(source: seq<int>, order: seq<nat>, skipZeros: bool, ccc: int -> nat, t: seq<int>)
    requires 2 <= |source| && IsReordering(source, order, skipZeros, ccc, t)
    ensures MayLead(source, order[0], skipZeros, ccc)
    ensures IsReordering(Remove(source, order[0]), Lower(order), skipZeros, ccc, t[1..])
  {
    var i, lowered := order[0], Lower(order);
    var rest := Remove(source, i);
    if skipZeros && i != 0 {
      EveryIndexIsTaken(order, |source|, 0);
    }
    assert forall k :: 0 <= k < |lowered| ==> rest[lowered[k]] == source[order[k + 1]];
    assert IsOrder(lowered, |rest|) by {
      forall k, l | 0 <= k < |rest| && 0 <= l < |rest| && lowered[k] == lowered[l]
        ensures k == l
      {
        assert order[k + 1] == order[l + 1];
      }
    }
    if skipZeros {
      forall k, l | 0 <= k < l < |rest| && ccc(rest[lowered[k]]) == 0
        ensures lowered[k] < lowered[l]
      {
        assert order[k + 1] < order[l + 1];
      }
    }
  }

  lemma LongPermuted(source: seq<int>, skipZeros: bool, ccc: int -> nat, t: seq<int>)
    requires 2 <= |source|
    ensures t in Permuted(source, skipZeros, ccc) <==>
            exists i: nat :: i < |source| && LeadsTo(source, i, skipZeros, ccc, t)
  {
    hide LeadsTo, LedBefore;
    LedBeforeIs(source, |source|, skipZeros, ccc, t);
  }

  /**
   The permutation finds exactly the reorderings of the source in which, with `skipZeros`,
   every character of combining class zero still follows all characters that preceded it.
   */
  lemma {:induction false} PermutedAreReorderings(source: seq<int>, skipZeros: bool, ccc: int -> nat, t: seq<int>)
    ensures t in Permuted(source, skipZeros, ccc) <==> exists order :: IsReordering(source, order, skipZeros, ccc, t)
    decreases |source|
  {
    if |source| <= 1 {
      if t == source {
        assert IsReordering(source, if source == [] then [] else [0], skipZeros, ccc, t);
      }
    } else {
      hide Permuted, IsReordering, MayLead;
      LongPermuted(source, skipZeros, ccc, t);
      if t in Permuted(source, skipZeros, ccc) {
        var i: nat :| i < |source| && LeadsTo(source, i, skipZeros, ccc, t);
        PermutedAreReorderings(Remove(source, i), skipZeros, ccc, t[1..]);
        var order :| IsReordering(Remove(source, i), order, skipZeros, ccc, t[1..]);
        LiftReorders(source, i, order, skipZeros, ccc, t);
      }
      if order :| IsReordering(source, order, skipZeros, ccc, t) {
        LowerReorders(source, order, skipZeros, ccc, t);
        PermutedAreReorderings(Remove(source, order[0]), skipZeros, ccc, t[1..]);
        assert LeadsTo(source, order[0], skipZeros, ccc, t);
      }
    }
  }

  lemma MultisetWithout(s: seq<int>, i: nat)
    requires i < |s|
    ensures multiset(s) == multiset{s[i]} + multiset(Remove(s, i))
  {
    assert s == s[..i] + [s[i]] + s[i + 1..];
  }

  lemma ShortRearrangement(source: seq<int>, t: seq<int>)
    requires |source| <= 1
    ensures multiset(t) == multiset(source) <==> t == source
  {
    if multiset(t) == multiset(source) {
      assert |t| == |multiset(t)| == |source|;
      if source != [] {
        assert t[0] in multiset(source);
      }
    }
  }

  /** Without `skipZeros` these are all rearrangements of the characters. */
  lemma {:induction false} PermutedAreAll(source: seq<int>, ccc: int -> nat, t: seq<int>)
    ensures t in Permuted(source, false, ccc) <==> multiset(t) == multiset(source)
    decreases |source|
  {
    if |source| <= 1 {
      ShortRearrangement(source, t);
    } else {
      hide Permuted;
      LongPermuted(source, false, ccc, t);
      if t in Permuted(source, false, ccc) {
        var i: nat :| i < |source| && LeadsTo(source, i, false, ccc, t);
        PermutedAreAll(Remove(source, i), ccc, t[1..]);
        WithoutFirst(source, i, t);
      }
      if multiset(t) == multiset(source) {
        var i := FirstIn(source, t);
        WithoutFirst(source, i, t);
        PermutedAreAll(Remove(source, i), ccc, t[1..]);
        assert LeadsTo(source, i, false, ccc, t);
      }
    }
  }

  lemma FirstIn(source: seq<int>, t: seq<int>) returns (i: nat)
    requires source != [] && multiset(t) == multiset(source)
    ensures t != [] && i < |source| && source[i] == t[0]
  {
    assert |t| == |multiset(t)| == |source|;
    assert t[0] in multiset(source);
    i :| i < |source| && source[i] == t[0];
  }

  lemma WithoutFirst(source: seq<int>, i: nat, t: seq<int>)
    requires i < |source| && t != [] && t[0] == source[i]
    ensures multiset(t) == multiset(source) <==> multiset(t[1..]) == multiset(Remove(source, i))
  {
    MultisetWithout(source, i);
    MultisetWithout(t, 0);
    assert Remove(t, 0) == t[1..];
    var a, b, c := multiset(t[1..]), multiset(Remove(source, i)), multiset{t[0]};
    assert a == c + a - c && b == c + b - c;
  }
}
