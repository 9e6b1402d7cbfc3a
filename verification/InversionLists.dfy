/**
 A set of code points as an inversion list: ascending boundaries where membership toggles,
 closed by 0x110000. This is the simple structure that `BMPSet` accelerates.
 */
module InversionLists {

  const HIGH := 0x11_0000

  ghost predicate IsInversionList(list: seq<int>) {
    0 < |list| && 0 <= list[0] && list[|list| - 1] == HIGH &&
    forall i, j :: 0 <= i < j < |list| ==> list[i] < list[j]
  }

  /** How many of the first `n` boundaries are at or below `c`. */
  ghost function RankTo(list: seq<int>, c: int, n: nat): nat
    requires n <= |list|
  {
    if n == 0 then 0 else RankTo(list, c, n - 1) + (if list[n - 1] <= c then 1 else 0)
  }

  ghost function Rank(list: seq<int>, c: int): nat {
    RankTo(list, c, |list|)
  }

  /** Membership is the parity of the number of boundaries at or below the code point. */
  ghost predicate In(list: seq<int>, c: int) {
    Rank(list, c) % 2 == 1
  }

  lemma {:induction false} RankToIs(list: seq<int>, c: int, i: nat, n: nat)
    requires i <= n <= |list|
    requires forall k :: 0 <= k < i ==> list[k] <= c
    requires forall k :: i <= k < n ==> c < list[k]
    ensures RankTo(list, c, n) == i
    decreases n
  {
    if i < n {
      RankToIs(list, c, i, n - 1);
    } else if 0 < n {
      RankToIs(list, c, n - 1, n - 1);
    }
  }

  /** The rank is found between two adjacent boundaries. */
  lemma RankIs(list: seq<int>, c: int, i: nat)
    requires IsInversionList(list) && i <= |list|
    requires i == 0 || list[i - 1] <= c
    requires i == |list| || c < list[i]
    ensures Rank(list, c) == i
  {
    RankToIs(list, c, i, |list|);
  }

  lemma {:induction false} RankToBounds(list: seq<int>, c: int, n: nat)
    requires n <= |list| && (forall i, j :: 0 <= i < j < |list| ==> list[i] < list[j])
    ensures var r := RankTo(list, c, n);
            r <= n && (forall k :: 0 <= k < r ==> list[k] <= c) && (forall k :: r <= k < n ==> c < list[k])
  {
    if n > 0 {
      RankToBounds(list, c, n - 1);
    }
  }

  lemma RankBounds(list: seq<int>, c: int)
    requires IsInversionList(list) && c < HIGH
    ensures var r := Rank(list, c);
            r < |list| && c < list[r] && (0 < r ==> list[r - 1] <= c)
  {
    RankToBounds(list, c, |list|);
  }

  lemma {:induction false} RankMonotone(list: seq<int>, c: int, d: int, n: nat)
    requires c <= d && n <= |list|
    ensures RankTo(list, c, n) <= RankTo(list, d, n)
  {
    if n > 0 {
      RankMonotone(list, c, d, n - 1);
    }
  }

  /** Position `i` of the list begins a range of members, up to the next boundary. */
  ghost predicate IsRange(list: seq<int>, i: nat, start: int, limit: int) {
    i < |list| && i % 2 == 0 && start == list[i] && limit == (if i + 1 < |list| then list[i + 1] else HIGH)
  }

  /** Code points in a range are members, those between the range before and it are not. */
  lemma RangeMembers(list: seq<int>, i: nat, start: int, limit: int, c: int)
    requires IsInversionList(list) && IsRange(list, i, start, limit)
    ensures start <= c < limit ==> In(list, c)
    ensures (if i == 0 then 0 else list[i - 1]) <= c < start ==> !In(list, c)
  {
    if start <= c < limit {
      RankIs(list, c, i + 1);
    } else if (if i == 0 then 0 else list[i - 1]) <= c < start {
      RankIs(list, c, i);
    }
  }

  /** The code point at the end of a range, before the next one, is no member. */
  lemma RangeLimit(list: seq<int>, i: nat, start: int, limit: int)
    requires IsInversionList(list) && IsRange(list, i, start, limit) && limit < HIGH
    ensures i + 2 < |list| && limit < list[i + 2] && !In(list, limit)
  {
    RankIs(list, limit, i + 2);
  }
}
