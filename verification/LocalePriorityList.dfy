/** A list of locales by descending weight, `icu/common/localeprioritylist.cpp`. */
module LocalePriorityLists {
  import opened Common
  import opened ErrorCodes
  import opened AcceptLanguage

  /** An item; none if its locale was removed because it is mentioned again. */
  datatype LocaleAndWeight = LocaleAndWeight(locale: Option<string>, weight: nat, index: nat) {

    function Compare(other: LocaleAndWeight): int {
      var diff := other.weight - weight;
      if diff != 0 then diff else index - other.index
    }
  }

  // ----- what the list means

  /** Mention `i` is the last one of its locale, and is not of weight 0. */
  ghost predicate IsLive(ms: seq<Mention>, i: nat) {
    i < |ms| && 0 < ms[i].weight && forall j :: i < j < |ms| ==> ms[j].locale != ms[i].locale
  }

  /**
   The items, in list order, come from mentions in that order; the locales that are left are
   those of live mentions.
   */
  ghost predicate Consistent(list: seq<LocaleAndWeight>, index: map<string, nat>, origin: seq<nat>, ms: seq<Mention>) {
    |origin| == |list| &&
    (forall k :: 0 <= k < |list| ==> list[k].index == k && origin[k] < |ms|) &&
    (forall k, l :: 0 <= k < l < |list| ==> origin[k] < origin[l]) &&
    (forall k :: 0 <= k < |list| && list[k].locale.Some? ==>
      IsLive(ms, origin[k]) && ms[origin[k]] == Mention(list[k].locale.value, list[k].weight) &&
      list[k].locale.value in index && index[list[k].locale.value] == k) &&
    (forall k :: 0 <= k < |list| && list[k].locale == None ==> list[k].weight == 0) &&
    (forall l :: l in index ==> index[l] < |list| && list[index[l]].locale == Some(l)) &&
    (forall i: nat :: IsLive(ms, i) ==> ms[i].locale in index && origin[index[ms[i].locale]] == i)
  }

  /** An item of the finished list, and the mention it comes from. */
  datatype Item = Item(locale: string, weight: nat, mention: nat)

  ghost predicate Before(a: Item, b: Item) {
    a.weight > b.weight || (a.weight == b.weight && a.mention < b.mention)
  }

  /** The locales that are last mentioned with a weight above 0, by descending weight and then by their last mention. */
  ghost predicate IsPriorityList(items: seq<Item>, ms: seq<Mention>) {
    (forall k :: 0 <= k < |items| ==>
      IsLive(ms, items[k].mention) && ms[items[k].mention] == Mention(items[k].locale, items[k].weight)) &&
    (forall i: nat :: IsLive(ms, i) ==> exists k :: 0 <= k < |items| && items[k].mention == i) &&
    (forall j, k :: 0 <= j < k < |items| ==> Before(items[j], items[k]))
  }

  /** Each locale is listed at most once; one that is listed has the weight of its last mention. */
  lemma ListedOnce(items: seq<Item>, ms: seq<Mention>, j: nat, k: nat)
    requires IsPriorityList(items, ms) && j < |items| && k < |items| && items[j].locale == items[k].locale
    ensures j == k
    ensures forall i :: items[j].mention < i < |ms| ==> ms[i].locale != items[j].locale
  {
    assert IsLive(ms, items[j].mention) && IsLive(ms, items[k].mention);
    assert items[j].mention == items[k].mention && items[j].weight == items[k].weight;
  }

  /** A locale is listed exactly if its last mention is not of weight 0. */
  lemma ListedIfWanted(items: seq<Item>, ms: seq<Mention>, i: nat)
    requires IsPriorityList(items, ms) && i < |ms| && forall j :: i < j < |ms| ==> ms[j].locale != ms[i].locale
    ensures 0 < ms[i].weight <==> exists k :: 0 <= k < |items| && items[k].locale == ms[i].locale
  {
    if 0 < ms[i].weight {
      assert IsLive(ms, i);
      var k :| 0 <= k < |items| && items[k].mention == i;
      assert items[k].locale == ms[i].locale;
    }
    if k :| 0 <= k < |items| && items[k].locale == ms[i].locale {
      assert IsLive(ms, items[k].mention);
      if items[k].mention < i {
      } else if i < items[k].mention {
      }
    }
  }

  // ----- adding

  /** One more mention ends the life of earlier ones of its locale. */
  lemma LiveAfter(ms: seq<Mention>, m: Mention, i: nat)
    ensures IsLive(ms + [m], i) <==> (IsLive(ms, i) && ms[i].locale != m.locale) || (i == |ms| && 0 < m.weight)
  {
    var more := ms + [m];
    assert more[|ms|] == m;
    if IsLive(more, i) && i < |ms| {
      assert more[|ms|].locale != more[i].locale;
      assert forall j :: i < j < |ms| ==> more[j] == ms[j];
    }
  }

  lemma LiveInRange(ms: seq<Mention>)
    ensures forall i: nat :: IsLive(ms, i) ==> i < |ms|
  {
  }

  /** The list without the item of a locale that is mentioned again. */
  ghost function Removed(list: seq<LocaleAndWeight>, index: map<string, nat>, locale: string): seq<LocaleAndWeight> {
    if locale in index && index[locale] < |list| then list[index[locale] := LocaleAndWeight(None, 0, index[locale])]
      else list
  }

  lemma RemovedIsConsistent(list: seq<LocaleAndWeight>, index: map<string, nat>, origin: seq<nat>, ms: seq<Mention>,
                            m: Mention)
    requires Consistent(list, index, origin, ms) && m.weight == 0
    ensures Consistent(Removed(list, index, m.locale), index - {m.locale}, origin, ms + [m])
  {
    hide IsLive;
    assert forall i: nat :: IsLive(ms, i) ==> i < |ms| by { LiveInRange(ms); }
    forall i: nat
      ensures IsLive(ms + [m], i) <==> (IsLive(ms, i) && ms[i].locale != m.locale) || (i == |ms| && 0 < m.weight)
    {
      LiveAfter(ms, m, i);
    }
  }

  lemma AppendedIsConsistent(list: seq<LocaleAndWeight>, index: map<string, nat>, origin: seq<nat>, ms: seq<Mention>,
                             m: Mention)
    requires Consistent(list, index, origin, ms) && 0 < m.weight
    ensures Consistent(Removed(list, index, m.locale) + [LocaleAndWeight(Some(m.locale), m.weight, |list|)],
                       index[m.locale := |list|], origin + [|ms|], ms + [m])
  {
    hide IsLive;
    assert forall i: nat :: IsLive(ms, i) ==> i < |ms| by { LiveInRange(ms); }
    forall i: nat
      ensures IsLive(ms + [m], i) <==> (IsLive(ms, i) && ms[i].locale != m.locale) || (i == |ms| && 0 < m.weight)
    {
      LiveAfter(ms, m, i);
    }
  }

  // ----- sorting

  ghost predicate Sorted(list: seq<LocaleAndWeight>) {
    forall j, k :: 0 <= j < k < |list| ==> list[j].Compare(list[k]) <= 0
  }

  /** Inserts an item into a sorted list. */
  method Insert(sorted: seq<LocaleAndWeight>, item: LocaleAndWeight) returns (r: seq<LocaleAndWeight>)
    requires Sorted(sorted)
    ensures Sorted(r) && multiset(r) == multiset(sorted) + multiset{item}
  {
    hide Sorted, LocaleAndWeight.Compare;
    var at: nat := |sorted|;
    while 0 < at && sorted[at - 1].Compare(item) > 0
      invariant at <= |sorted| && forall k :: at <= k < |sorted| ==> sorted[k].Compare(item) > 0
    {
      at := at - 1;
    }
    r := sorted[..at] + [item] + sorted[at..];
    assert sorted == sorted[..at] + sorted[at..];
    InsertedIsSorted(sorted, at, item);
  }

  lemma CompareOrders(a: LocaleAndWeight, b: LocaleAndWeight, c: LocaleAndWeight)
    ensures a.Compare(b) > 0 ==> b.Compare(a) < 0
    ensures a.Compare(b) <= 0 && b.Compare(c) <= 0 ==> a.Compare(c) <= 0
  {
  }

  lemma InsertedIsSorted(sorted: seq<LocaleAndWeight>, at: nat, item: LocaleAndWeight)
    requires Sorted(sorted) && at <= |sorted|
    requires 0 < at ==> sorted[at - 1].Compare(item) <= 0
    requires forall k :: at <= k < |sorted| ==> sorted[k].Compare(item) > 0
    ensures Sorted(sorted[..at] + [item] + sorted[at..])
  {
    hide LocaleAndWeight.Compare;
    var r := sorted[..at] + [item] + sorted[at..];
    forall j, k | 0 <= j < k < |r|
      ensures r[j].Compare(r[k]) <= 0
    {
      if j < at && k == at {
        CompareOrders(sorted[j], sorted[at - 1], item);
      } else if j == at {
        CompareOrders(sorted[k - 1], item, item);
      }
    }
  }

  /** Sorts items by the comparison; the index makes it a total order. */
  method SortArray(list: seq<LocaleAndWeight>) returns (r: seq<LocaleAndWeight>)
    ensures Sorted(r) && multiset(r) == multiset(list)
  {
    r := [];
    for i := 0 to |list|
      invariant Sorted(r) && multiset(r) == multiset(list[..i])
    {
      r := Insert(r, list[i]);
      assert list[..i + 1] == list[..i] + [list[i]];
    }
    assert list[..|list|] == list;
  }

  // ----- the finished list

  /** The items that are left from `i` on, and the mentions that they come from. */
  ghost function Remaining(list: seq<LocaleAndWeight>, origin: seq<nat>, i: nat): seq<Item>
    requires i <= |list| && forall k :: 0 <= k < |list| ==> list[k].index < |origin|
    decreases |list| - i
  {
    if i == |list| then []
    else
      (match list[i].locale
       case None => []
       case Some(locale) => [Item(locale, list[i].weight, origin[list[i].index])]) + Remaining(list, origin, i + 1)
  }

  /** All that is left is in order, and comes from live mentions; nothing that lives is missing. */
  ghost predicate Finished(list: seq<LocaleAndWeight>, origin: seq<nat>, ms: seq<Mention>) {
    (forall k :: 0 <= k < |list| ==> list[k].index < |origin|) &&
    (forall k :: 0 <= k < |list| && list[k].locale.Some? ==>
      IsLive(ms, origin[list[k].index]) &&
      ms[origin[list[k].index]] == Mention(list[k].locale.value, list[k].weight)) &&
    (forall i: nat :: IsLive(ms, i) ==>
     exists k :: 0 <= k < |list| && list[k].locale.Some? && origin[list[k].index] == i) &&
    (forall j, k :: 0 <= j < k < |list| && list[j].locale.Some? && list[k].locale.Some? ==>
      list[j].weight > list[k].weight ||
      (list[j].weight == list[k].weight && origin[list[j].index] < origin[list[k].index]))
  }

  lemma {:induction false} RemainingSound(list: seq<LocaleAndWeight>, origin: seq<nat>, i: nat, x: nat) returns (k: nat)
    requires i <= |list| && forall k :: 0 <= k < |list| ==> list[k].index < |origin|
    requires x < |Remaining(list, origin, i)|
    ensures i <= k < |list| && IsItemAt(list, origin, k, Remaining(list, origin, i)[x])
    decreases |list| - i
  {
    if list[i].locale == None {
      k := RemainingSound(list, origin, i + 1, x);
    } else if x == 0 {
      k := i;
    } else {
      k := RemainingSound(list, origin, i + 1, x - 1);
    }
  }

  lemma {:induction false} RemainingComplete(list: seq<LocaleAndWeight>, origin: seq<nat>, i: nat, k: nat)
    returns (x: nat)
    requires i <= k < |list| && list[k].locale.Some? && forall k :: 0 <= k < |list| ==> list[k].index < |origin|
    ensures x < |Remaining(list, origin, i)| && IsItemAt(list, origin, k, Remaining(list, origin, i)[x])
    decreases |list| - i
  {
    if i == k {
      x := 0;
    } else {
      x := RemainingComplete(list, origin, i + 1, k);
      if list[i].locale.Some? {
        x := x + 1;
      }
    }
  }

  lemma {:induction false} RemainingOrdered(list: seq<LocaleAndWeight>, origin: seq<nat>, ms: seq<Mention>, i: nat,
                                            x: nat, y: nat)
    requires Finished(list, origin, ms) && i <= |list| && x < y < |Remaining(list, origin, i)|
    ensures Before(Remaining(list, origin, i)[x], Remaining(list, origin, i)[y])
    decreases |list| - i
  {
    hide IsLive;
    if list[i].locale == None {
      RemainingOrdered(list, origin, ms, i + 1, x, y);
    } else if x > 0 {
      RemainingOrdered(list, origin, ms, i + 1, x - 1, y - 1);
    } else {
      var k := RemainingSound(list, origin, i + 1, y - 1);
      ItemsOrdered(list, origin, ms, i, k);
    }
  }

  lemma ItemsOrdered(list: seq<LocaleAndWeight>, origin: seq<nat>, ms: seq<Mention>, j: nat, k: nat)
    requires Finished(list, origin, ms) && j < k < |list| && list[j].locale.Some? && list[k].locale.Some?
    ensures Before(Item(list[j].locale.value, list[j].weight, origin[list[j].index]),
                   Item(list[k].locale.value, list[k].weight, origin[list[k].index]))
  {
  }

  ghost predicate IsItemAt(list: seq<LocaleAndWeight>, origin: seq<nat>, k: nat, item: Item) {
    k < |list| && list[k].locale.Some? && list[k].index < |origin| &&
    item == Item(list[k].locale.value, list[k].weight, origin[list[k].index])
  }

  lemma FinishedIsPriorityList(list: seq<LocaleAndWeight>, origin: seq<nat>, ms: seq<Mention>)
    requires Finished(list, origin, ms)
    ensures IsPriorityList(Remaining(list, origin, 0), ms)
  {
    var items := Remaining(list, origin, 0);
    forall x | 0 <= x < |items|
      ensures IsLive(ms, items[x].mention) && ms[items[x].mention] == Mention(items[x].locale, items[x].weight)
    {
      var k := RemainingSound(list, origin, 0, x);
    }
    forall i: nat | IsLive(ms, i)
      ensures exists x :: 0 <= x < |items| && items[x].mention == i
    {
      var k :| 0 <= k < |list| && list[k].locale.Some? && origin[list[k].index] == i;
      var x := RemainingComplete(list, origin, 0, k);
      assert items[x].mention == i;
    }
    forall x, y | 0 <= x < y < |items|
      ensures Before(items[x], items[y])
    {
      RemainingOrdered(list, origin, ms, 0, x, y);
    }
  }

  /** There is no mix of weights. */
  ghost predicate AllWeightOne(list: seq<LocaleAndWeight>) {
    forall k :: 0 <= k < |list| && list[k].locale.Some? ==> list[k].weight == WEIGHT_ONE
  }

  /** A list that is in order without sorting. */
  lemma ConsistentIsFinished(list: seq<LocaleAndWeight>, index: map<string, nat>, origin: seq<nat>, ms: seq<Mention>)
    requires Consistent(list, index, origin, ms)
    requires |index| <= 1 || AllWeightOne(list)
    ensures Finished(list, origin, ms)
  {
    forall i: nat | IsLive(ms, i)
      ensures exists k :: 0 <= k < |list| && list[k].locale.Some? && origin[list[k].index] == i
    {
      var k := index[ms[i].locale];
      assert list[k].locale.Some? && origin[list[k].index] == i;
    }
    if |index| <= 1 {
      forall j, k | 0 <= j < k < |list| && list[j].locale.Some? && list[k].locale.Some?
        ensures false
      {
        TwoKeys(index, list[j].locale.value, list[k].locale.value);
      }
    }
  }

  lemma TwoKeys(index: map<string, nat>, a: string, b: string)
    requires a in index && b in index && a != b
    ensures 2 <= |index|
  {
    assert {a, b} <= index.Keys;
    SubsetSize({a, b}, index.Keys);
    assert |index| == |index.Keys|;
  }

  lemma SortedIsFinished(list: seq<LocaleAndWeight>, sorted: seq<LocaleAndWeight>, index: map<string, nat>,
                         origin: seq<nat>, ms: seq<Mention>)
    requires Consistent(list, index, origin, ms) && Sorted(sorted) && multiset(sorted) == multiset(list)
    ensures Finished(sorted, origin, ms)
  {
    forall k | 0 <= k < |sorted|
      ensures sorted[k].index < |list| && list[sorted[k].index] == sorted[k]
    {
      assert sorted[k] in multiset(list);
    }
    forall i: nat | IsLive(ms, i)
      ensures exists k :: 0 <= k < |sorted| && sorted[k].locale.Some? && origin[sorted[k].index] == i
    {
      var item := list[index[ms[i].locale]];
      assert item in multiset(sorted);
      var k :| 0 <= k < |sorted| && sorted[k] == item;
      assert sorted[k].locale.Some? && origin[sorted[k].index] == i;
    }
    forall j, k | 0 <= j < k < |sorted| && sorted[j].locale.Some? && sorted[k].locale.Some?
      ensures sorted[j].weight > sorted[k].weight ||
              (sorted[j].weight == sorted[k].weight && origin[sorted[j].index] < origin[sorted[k].index])
    {
      assert sorted[j].Compare(sorted[k]) <= 0;
      if sorted[j].index == sorted[k].index {
        TwiceInMultiset(sorted, j, k);
        OnceInList(list, sorted[j]);
      }
    }
  }

  lemma TwiceInMultiset(s: seq<LocaleAndWeight>, j: nat, k: nat)
    requires j < k < |s| && s[j] == s[k]
    ensures multiset(s)[s[j]] >= 2
  {
    assert s == s[..k] + [s[k]] + s[k + 1..];
    assert s[j] in s[..k];
  }

  lemma {:induction false} OnceInList(list: seq<LocaleAndWeight>, item: LocaleAndWeight)
    requires forall k :: 0 <= k < |list| ==> list[k].index == k
    ensures multiset(list)[item] <= 1
  {
    if list != [] {
      var n := |list| - 1;
      assert list == list[..n] + [list[n]];
      OnceInList(list[..n], item);
      if list[n] == item {
        assert item !in list[..n];
      }
    }
  }

  // ----- the class

  class LocalePriorityList {
    var list: seq<LocaleAndWeight>
    var numRemoved: nat
    var hasWeights: bool
    var index: Option<map<string, nat>>

    ghost var mentions: seq<Mention>
    ghost var origin: seq<nat>

    ghost function Index(): map<string, nat>
      reads this
    {
      if index == None then map[] else index.value
    }

    ghost predicate Valid()
      reads this
    {
      Consistent(list, Index(), origin, mentions) && |Index()| == |list| - numRemoved &&
      (!hasWeights ==> AllWeightOne(list))
    }

    constructor ()
      ensures Valid() && mentions == []
    {
      list, numRemoved, hasWeights, index := [], 0, false, None;
      mentions, origin := [], [];
    }

    function GetLength(): (n: int)
      reads this
    {
      |list| - numRemoved
    }

    /** Takes note of a mention; replaces an earlier one of the same locale. */
    method Add(locale: string, weight: nat)
      requires Valid() && weight <= WEIGHT_ONE
      modifies this
      ensures Valid() && mentions == old(mentions) + [Mention(locale, weight)]
    {
      hide Consistent, Removed, IsLive, AllWeightOne;
      if index == None {
        if weight <= 0 {
          ghost var m := Mention(locale, weight);
          NothingToRemove(list, origin, mentions, m);
          RemovedIsConsistent(list, Index(), origin, mentions, m);
          assert Index() - {locale} == Index();
          mentions := mentions + [m];
          return;
        }
        index := Some(map[]);
      }
      if weight <= 0 {
        Forget(locale, index.value);
      } else {
        Replace(locale, weight, index.value);
      }
    }

    /** A mention of weight 0: removes the old item. */
    method Forget(locale: string, map_: map<string, nat>)
      requires Valid() && index == Some(map_)
      modifies this
      ensures Valid() && mentions == old(mentions) + [Mention(locale, 0)]
    {
      hide Consistent, Removed, IsLive, AllWeightOne;
      RemovedIsConsistent(list, map_, origin, mentions, Mention(locale, 0));
      PositionsAreIndexes(list, map_, origin, mentions);
      var found := RemoveOld(locale, map_);
      DropKey(map_, locale, found);
      mentions := mentions + [Mention(locale, 0)];
      assert Index() == map_ - {locale} && |Index()| == |list| - numRemoved;
      assert Consistent(list, Index(), origin, mentions);
    }

    /** A mention of another weight: removes the old item, and appends it anew. */
    method Replace(locale: string, weight: nat, map_: map<string, nat>)
      requires Valid() && index == Some(map_) && 0 < weight <= WEIGHT_ONE
      modifies this
      ensures Valid() && mentions == old(mentions) + [Mention(locale, weight)]
    {
      hide Consistent, Removed, IsLive, AllWeightOne;
      AppendedIsConsistent(list, map_, origin, mentions, Mention(locale, weight));
      PositionsAreIndexes(list, map_, origin, mentions);
      var found := RemoveOld(locale, map_);
      WithKey(map_, locale, |list|);
      mentions := mentions + [Mention(locale, weight)];
      Append(locale, weight, map_);
    }

    /** Removes the position of a locale. */
    method DropKey(map_: map<string, nat>, locale: string, found: bool)
      requires index == Some(map_) && found == (locale in map_)
      modifies `index
      ensures index == Some(map_ - {locale}) && |map_ - {locale}| == |map_| - if found then 1 else 0
    {
      if found {
        WithoutKey(map_, locale);
        index := Some(map_ - {locale});
      } else {
        assert map_ - {locale} == map_;
      }
    }

    /** Appends an item, whose old one was removed. */
    method Append(locale: string, weight: nat, map_: map<string, nat>)
      requires mentions != []
      modifies `list, `index, `hasWeights, `origin
      ensures list == old(list) + [LocaleAndWeight(Some(locale), weight, |old(list)|)]
      ensures index == Some(map_[locale := |old(list)|]) && origin == old(origin) + [|mentions| - 1]
      ensures hasWeights == (old(hasWeights) || weight < WEIGHT_ONE)
      ensures AllWeightOne(old(list)) && weight == WEIGHT_ONE ==> AllWeightOne(list)
    {
      index := Some(map_[locale := |list|]);
      list := list + [LocaleAndWeight(Some(locale), weight, |list|)];
      origin := origin + [|mentions| - 1];
      if weight < WEIGHT_ONE {
        hasWeights := true;
      }
    }

    /** Removes the item of a locale that is mentioned again. */
    method RemoveOld(locale: string, map_: map<string, nat>) returns (found: bool)
      requires forall l :: l in map_ ==> map_[l] < |list|
      modifies `list, `numRemoved
      ensures found == (locale in map_) && list == Removed(old(list), map_, locale) && |list| == |old(list)|
      ensures numRemoved == old(numRemoved) + if found then 1 else 0
      ensures AllWeightOne(old(list)) ==> AllWeightOne(list)
    {
      found := locale in map_;
      if found {
        list := list[map_[locale] := LocaleAndWeight(None, 0, map_[locale])];
        numRemoved := numRemoved + 1;
      }
    }

    /** Sorts the list, unless all weights are equal, where it is in order already. */
    method Sort()
      requires Valid()
      modifies `list
      ensures Finished(list, origin, mentions) && |list| == |old(list)|
      ensures multiset(list) == multiset(old(list))
    {
      hide Consistent, Finished;
      if GetLength() <= 1 || !hasWeights {
        ConsistentIsFinished(list, Index(), origin, mentions);
        return;
      }
      ghost var items := list;
      list := SortArray(list);
      assert |list| == |multiset(list)| == |multiset(items)| == |items|;
      SortedIsFinished(items, list, Index(), origin, mentions);
    }

    /** The finished list. */
    ghost function Delivered(): seq<Item>
      reads this
      requires Finished(list, origin, mentions)
    {
      Remaining(list, origin, 0)
    }

    /** Reads an Accept-Language string; fails exactly if one of its fields is not well-formed. */
    method Build(s: string, localeOf: string -> Option<string>) returns (errorCode: ErrorCode)
      requires Valid() && mentions == []
      modifies this
      ensures errorCode == if Mentions(s, 0, localeOf) == None then IllegalArgumentError else ZeroError
      ensures errorCode == ZeroError ==>
                Mentions(s, 0, localeOf) == Some(mentions) && Finished(list, origin, mentions) &&
                IsPriorityList(Delivered(), mentions) && |Delivered()| == GetLength()
    {
      hide Mentions, FieldMentions, Prepended, Finished, Consistent, IsPriorityList, SpacesEnd, FieldEnd, MentionRead;
      var p := 0;
      ghost var all := Mentions(s, 0, localeOf);
      PrependedNothing(all);
      while true
        invariant p <= |s| && Valid() && all == Prepended(mentions, Mentions(s, p, localeOf))
        decreases |s| - p
      {
        ghost var start := p;
        p := SkipSpaces(s, p);
        EmptyField(s, start, localeOf);
        PrependedToNothing(mentions);
        if p == |s| {
          break;
        }
        if s[p] == ',' {
          p := p + 1;
          continue;
        }
        var m;
        m, p := ParseMention(s, start, p, localeOf);
        if m == None {
          return IllegalArgumentError;
        }
        PrependedTwice(mentions, m.value, Mentions(s, if p < |s| then p + 1 else p, localeOf));
        Add(m.value.locale, m.value.weight);
        if p == |s| {
          break;
        }
        p := p + 1;
      }
      errorCode := ZeroError;
      Finish();
    }

    /** Sorts the list, after the last mention. */
    method Finish()
      requires Valid()
      modifies `list
      ensures Finished(list, origin, mentions) && IsPriorityList(Delivered(), mentions) && |Delivered()| == GetLength()
    {
      hide Finished, Consistent, IsPriorityList, AreLive;
      ghost var positions := Index();
      LiveLocales(list, positions, origin, mentions);
      Sort();
      FinishedIsPriorityList(list, origin, mentions);
      LengthIsCount(Delivered(), mentions, positions);
    }
  }

  /** The mentions of a first field, and of the others. */
  ghost function Prepended(first: seq<Mention>, others: Option<seq<Mention>>): Option<seq<Mention>> {
    if others == None then None else Some(first + others.value)
  }

  lemma PrependedTwice(a: seq<Mention>, m: Mention, others: Option<seq<Mention>>)
    ensures Prepended(a, Prepended([m], others)) == Prepended(a + [m], others)
    ensures Prepended(a, Some([m])) == Some(a + [m])
  {
    if others.Some? {
      assert a + ([m] + others.value) == a + [m] + others.value;
    }
  }

  /** Spaces up to the end of a field mention nothing. */
  lemma EmptyField(s: string, p: nat, localeOf: string -> Option<string>)
    requires p <= |s|
    ensures var q := SpacesEnd(s, p);
            (q == |s| ==> Mentions(s, p, localeOf) == Some([])) &&
            (q < |s| && s[q] == ',' ==> Mentions(s, p, localeOf) == Mentions(s, q + 1, localeOf))
  {
    var q := SpacesEnd(s, p);
    if q == |s| || s[q] == ',' {
      CommaEnds(s, p, q);
      if q < |s| && Mentions(s, q + 1, localeOf).Some? {
        assert [] + Mentions(s, q + 1, localeOf).value == Mentions(s, q + 1, localeOf).value;
      }
    }
  }

  lemma PrependedNothing(others: Option<seq<Mention>>)
    ensures Prepended([], others) == others
  {
    if others.Some? {
      assert [] + others.value == others.value;
    }
  }

  lemma PrependedToNothing(first: seq<Mention>)
    ensures Prepended(first, Some([])) == Some(first) && Prepended(first, None) == None
  {
    assert first + [] == first;
  }

  /** A field that is not empty. */
  lemma MentionField(s: string, p: nat, localeOf: string -> Option<string>)
    requires p <= |s| && SpacesEnd(s, p) < |s| && s[SpacesEnd(s, p)] != ','
    ensures (forall m :: !MentionRead(s, p, localeOf, m)) ==> Mentions(s, p, localeOf) == None
    ensures forall m :: MentionRead(s, p, localeOf, m) ==>
              var e := FieldEnd(s, p);
              Mentions(s, p, localeOf) ==
              if e == |s| then Some([m]) else Prepended([m], Mentions(s, e + 1, localeOf))
  {
    hide MentionRead, IsMention;
    var e, q := FieldEnd(s, p), SpacesEnd(s, p);
    if Spaces(s, p, e) {
      SpacesAre(s, p, e);
    }
    forall m
      ensures IsMention(s, p, e, localeOf, m) <==> MentionRead(s, p, localeOf, m)
    {
      MentionIsRead(s, p, localeOf, m);
    }
    forall m | MentionRead(s, p, localeOf, m)
      ensures FieldMentions(s, p, localeOf) == Some([m])
    {
      var n :| FieldMentions(s, p, localeOf) == Some([n]) && IsMention(s, p, e, localeOf, n);
      MentionOnce(s, p, localeOf, m, n);
    }
  }

  /** Parses a language range and its weight; none if they are not well-formed. */
  method ParseMention(s: string, ghost start: nat, p: nat, localeOf: string -> Option<string>)
    returns (m: Option<Mention>, e: nat)
    requires start <= |s| && p == SpacesEnd(s, start) && p < |s| && s[p] != ','
    ensures m == None ==> Mentions(s, start, localeOf) == None
    ensures m.Some? ==>
              p < e <= |s| && m.value.weight <= WEIGHT_ONE &&
              Mentions(s, start, localeOf) ==
              if e == |s| then Some([m.value]) else Prepended([m.value], Mentions(s, e + 1, localeOf))
  {
    hide Mentions, SpacesEnd, TagEnd, FieldEnd, QualityRead;
    MentionField(s, start, localeOf);
    var tagLength := FindTagLength(s, p);
    if tagLength == 0 {
      return None, p;
    }
    var locale := localeOf(s[p..p + tagLength]);
    if locale == None {
      return None, p;
    }
    var weight;
    weight, e := ParseQuality(s, p + tagLength);
    if weight < 0 {
      return None, e;
    }
    m := Some(Mention(locale.value, weight));
    assert MentionRead(s, start, localeOf, m.value);
    WeightIsBounded(s, p + tagLength, weight);
    FieldEndsLater(s, start, p + tagLength);
  }

  lemma WeightIsBounded(s: string, p: nat, w: nat)
    requires p <= |s| && QualityRead(s, p, w)
    ensures w <= WEIGHT_ONE
  {
  }

  lemma FieldEndsLater(s: string, start: nat, u: nat)
    requires start <= u <= |s| && u == TagEnd(s, SpacesEnd(s, start))
    ensures FieldEnd(s, u) == FieldEnd(s, start) && u <= FieldEnd(s, u)
  {
    CommaEnds(s, start, FieldEnd(s, u));
  }

  // ----- the number of items

  /** The locales that have a position are those of live mentions. */
  ghost predicate AreLive(index: map<string, nat>, ms: seq<Mention>) {
    forall l :: l in index <==> exists i: nat :: IsLive(ms, i) && ms[i].locale == l
  }

  lemma LiveLocales(list: seq<LocaleAndWeight>, index: map<string, nat>, origin: seq<nat>, ms: seq<Mention>)
    requires Consistent(list, index, origin, ms)
    ensures AreLive(index, ms)
  {
    forall l | l in index
      ensures exists i: nat :: IsLive(ms, i) && ms[i].locale == l
    {
      assert IsLive(ms, origin[index[l]]) && ms[origin[index[l]]].locale == l;
    }
  }

  ghost function Locales(items: seq<Item>, n: nat): (r: set<string>)
    requires n <= |items|
  {
    if n == 0 then {} else Locales(items, n - 1) + {items[n - 1].locale}
  }

  lemma {:induction false} LocalesAre(items: seq<Item>, n: nat, l: string)
    requires n <= |items|
    ensures l in Locales(items, n) <==> exists k :: 0 <= k < n && items[k].locale == l
  {
    if n > 0 {
      LocalesAre(items, n - 1, l);
    }
  }

  lemma AnotherLocale(items: seq<Item>, ms: seq<Mention>, n: nat)
    requires n < |items| && IsPriorityList(items, ms)
    ensures items[n].locale !in Locales(items, n)
  {
    hide IsPriorityList, IsLive;
    LocalesAre(items, n, items[n].locale);
    if items[n].locale in Locales(items, n) {
      var k :| 0 <= k < n && items[k].locale == items[n].locale;
      ListedOnce(items, ms, k, n);
    }
  }

  lemma {:induction false} LocalesDistinct(items: seq<Item>, ms: seq<Mention>, n: nat)
    requires n <= |items| && IsPriorityList(items, ms)
    ensures |Locales(items, n)| == n
  {
    hide IsPriorityList, IsLive;
    if n > 0 {
      LocalesDistinct(items, ms, n - 1);
      AnotherLocale(items, ms, n - 1);
    }
  }

  lemma LengthIsCount(items: seq<Item>, ms: seq<Mention>, index: map<string, nat>)
    requires IsPriorityList(items, ms) && AreLive(index, ms)
    ensures |items| == |index|
  {
    hide IsPriorityList, AreLive, IsLive;
    LocalesDistinct(items, ms, |items|);
    forall l
      ensures l in Locales(items, |items|) <==> l in index
    {
      ListedIsLive(items, ms, l);
      if l in index {
        var i := LiveOf(index, ms, l);
      }
      if i: nat :| IsLive(ms, i) && i < |ms| && ms[i].locale == l {
        LiveIsKey(index, ms, i);
      }
    }
    assert Locales(items, |items|) == index.Keys;
    assert |index| == |index.Keys|;
  }

  lemma LiveOf(index: map<string, nat>, ms: seq<Mention>, l: string) returns (i: nat)
    requires AreLive(index, ms) && l in index
    ensures IsLive(ms, i) && i < |ms| && ms[i].locale == l
  {
    i :| IsLive(ms, i) && ms[i].locale == l;
  }

  lemma LiveIsKey(index: map<string, nat>, ms: seq<Mention>, i: nat)
    requires AreLive(index, ms) && IsLive(ms, i)
    ensures ms[i].locale in index
  {
  }

  lemma ListedIsLive(items: seq<Item>, ms: seq<Mention>, l: string)
    requires IsPriorityList(items, ms)
    ensures l in Locales(items, |items|) <==> exists i: nat :: IsLive(ms, i) && i < |ms| && ms[i].locale == l
  {
    hide IsLive;
    LocalesAre(items, |items|, l);
    if l in Locales(items, |items|) {
      var k :| 0 <= k < |items| && items[k].locale == l;
      LiveIsMention(items, ms, k);
    }
    if i: nat :| IsLive(ms, i) && i < |ms| && ms[i].locale == l {
      var k :| 0 <= k < |items| && items[k].mention == i;
      LiveIsMention(items, ms, k);
    }
  }

  lemma LiveIsMention(items: seq<Item>, ms: seq<Mention>, k: nat)
    requires IsPriorityList(items, ms) && k < |items|
    ensures IsLive(ms, items[k].mention) && items[k].mention < |ms| && ms[items[k].mention].locale == items[k].locale
  {
  }

  // ----- parsing

  method SkipSpaces(s: string, start: nat) returns (p: nat)
    requires start <= |s|
    ensures p == SpacesEnd(s, start)
  {
    p := start;
    while p < |s| && s[p] == ' '
      invariant p <= |s| && SpacesEnd(s, p) == SpacesEnd(s, start)
    {
      p := p + 1;
    }
  }

  method FindTagLength(s: string, p: nat) returns (n: nat)
    requires p <= |s|
    ensures p + n == TagEnd(s, p)
  {
    var q := p;
    while q < |s| && !Delimiter(s[q])
      invariant p <= q <= |s| && TagEnd(s, q) == TagEnd(s, p)
    {
      q := q + 1;
    }
    n := q - p;
  }

  /** The weight of `n` fraction digits that are read as `number`, and what the next digit counts. */
  ghost predicate Fraction(weight: int, multiplier: int, number: nat, n: nat) {
    0 <= weight &&
    if n <= 3 then
      weight * Power(n) == 1000 * number &&
      multiplier == (if n == 0 then 100 else if n == 1 then 10 else if n == 2 then 1 else 0)
    else multiplier == -1 && Rounded(weight, number, Power(n))
  }

  /** Reads one more digit of a fraction. */
  lemma NextDigit(weight: int, multiplier: int, number: nat, n: nat, d: nat)
    requires Fraction(weight, multiplier, number, n) && d <= 9
    ensures multiplier > 0 ==> Fraction(weight + d * multiplier, multiplier / 10, 10 * number + d, n + 1)
    ensures multiplier == 0 ==> Fraction(if d >= 5 then weight + 1 else weight, -1, 10 * number + d, n + 1)
    ensures multiplier < 0 ==> Fraction(weight, multiplier, 10 * number + d, n + 1)
  {
    SmallPowers();
    if n > 3 {
      PowerMultiple(n);
      FurtherDigit(weight, number, Power(n), d);
    }
  }

  /** A fraction of up to three digits is exact. */
  lemma FractionIsRounded(weight: int, multiplier: int, number: nat, n: nat)
    requires Fraction(weight, multiplier, number, n)
    ensures Rounded(weight, number, Power(n))
  {
    SmallPowers();
  }

  /** Reads a quality value as thousandths; a negative result says that it is none. */
  method ParseWeight(s: string, start: nat) returns (weight: int, p: nat)
    requires start <= |s|
    ensures 0 <= weight ==>
              SpacesEnd(s, start) < |s| && p == WeightEnd(s, SpacesEnd(s, start)) &&
              IsWeight(s, SpacesEnd(s, start), p, weight)
    ensures weight < 0 ==> SpacesEnd(s, start) < |s| ==>
              forall w :: !IsWeight(s, SpacesEnd(s, start), WeightEnd(s, SpacesEnd(s, start)), w)
    ensures start <= p <= |s|
  {
    p := SkipSpaces(s, start);
    ghost var from := p;
    if p == |s| || (s[p] != '0' && s[p] != '1') {
      return -1, p;
    }
    weight := DigitValue(s[p]) * 1000;
    p := p + 1;
    if p == |s| || s[p] != '.' {
      return;
    }
    weight, p := ParseFraction(s, from, weight, p);
    ghost var number := Number(s, DigitValue(s[from]), from + 2, p);
    ghost var scale := Power(p - (from + 2));
    if weight > WEIGHT_ONE {
      forall w
        ensures !IsWeight(s, from, p, w)
      {
        if Rounded(w, number, scale) {
          RoundedOnce(w, weight, number, scale);
        }
      }
      weight := -1;
    }
  }

  method ParseFraction(s: string, ghost from: nat, start: int, point: nat) returns (weight: int, p: nat)
    requires point < |s| && point == from + 1 && Digit(s[from]) && start == DigitValue(s[from]) * 1000 &&
             s[point] == '.'
    ensures p == DigitsEnd(s, from + 2) && 0 <= weight
    ensures Rounded(weight, Number(s, DigitValue(s[from]), from + 2, p), Power(p - (from + 2)))
  {
    hide Rounded, DigitsEnd;
    weight, p := start, point + 1;
    var multiplier: int := 100;
    ghost var lead := DigitValue(s[from]);
    SmallPowers();
    while p != |s| && Digit(s[p])
      invariant from + 2 <= p <= |s| && (forall k :: from + 2 <= k < p ==> Digit(s[k]))
      invariant Fraction(weight, multiplier, Number(s, lead, from + 2, p), p - (from + 2))
    {
      var c := DigitValue(s[p]);
      NextDigit(weight, multiplier, Number(s, lead, from + 2, p), p - (from + 2), c);
      if multiplier > 0 {
        weight := weight + c * multiplier;
        multiplier := multiplier / 10;
      } else if multiplier == 0 {
        if c >= 5 {
          weight := weight + 1;
        }
        multiplier := -1;
      }
      p := p + 1;
    }
    DigitsAre(s, from + 2, p);
    FractionIsRounded(weight, multiplier, Number(s, lead, from + 2, p), p - (from + 2));
  }

  lemma DigitsAre(s: string, p: nat, q: nat)
    requires p <= q <= |s| && (q < |s| ==> !Digit(s[q])) && forall k :: p <= k < q ==> Digit(s[k])
    ensures DigitsEnd(s, p) == q
  {
  }

  /** Parses what follows a language range, up to the end of its field; negative if it is not well-formed. */
  method ParseQuality(s: string, start: nat) returns (weight: int, p: nat)
    requires start <= |s|
    ensures 0 <= weight ==> QualityRead(s, start, weight) && p == FieldEnd(s, start)
    ensures weight < 0 ==> forall w :: !QualityRead(s, start, w)
  {
    hide IsWeight, SpacesEnd, WeightEnd, FieldEnd;
    weight := WEIGHT_ONE;
    p := SkipSpaces(s, start);
    if p != |s| && s[p] == ';' {
      p := SkipSpaces(s, p + 1);
      if p == |s| || s[p] != 'q' {
        return -1, p;
      }
      p := SkipSpaces(s, p + 1);
      if p == |s| || s[p] != '=' {
        return -1, p;
      }
      weight, p := ParseWeight(s, p + 1);
      if weight < 0 {
        return;
      }
      p := SkipSpaces(s, p);
    }
    if p != |s| && s[p] != ',' {
      return -1, p;
    }
    QualityEnds(s, start, weight, p);
  }

  /** Where the reading of a weight ends. */
  ghost function QualityEnd(s: string, p: nat): nat
    requires p <= |s|
  {
    var a := SpacesEnd(s, p);
    if a < |s| && s[a] == ';' then
      var b := SpacesEnd(s, a + 1);
      var c := if b < |s| then SpacesEnd(s, b + 1) else b;
      var d := if c < |s| then SpacesEnd(s, c + 1) else c;
      if d < |s| then SpacesEnd(s, WeightEnd(s, d)) else d
    else a
  }

  lemma QualityEnds(s: string, p: nat, w: nat, e: nat)
    requires p <= |s| && QualityRead(s, p, w) && e == QualityEnd(s, p)
    ensures e == FieldEnd(s, p)
  {
    hide IsWeight, SpacesEnd, WeightEnd, FieldEnd;
    var a := SpacesEnd(s, p);
    if a < |s| && s[a] == ';' {
      var d := SpacesEnd(s, SpacesEnd(s, SpacesEnd(s, a + 1) + 1) + 1);
      WeightHasNoComma(s, d, WeightEnd(s, d), w);
    }
    CommaEnds(s, p, e);
  }

  lemma NothingToRemove(list: seq<LocaleAndWeight>, origin: seq<nat>, ms: seq<Mention>, m: Mention)
    ensures Removed(list, map[], m.locale) == list
  {
  }

  lemma PositionsAreIndexes(list: seq<LocaleAndWeight>, index: map<string, nat>, origin: seq<nat>, ms: seq<Mention>)
    requires Consistent(list, index, origin, ms)
    ensures forall l :: l in index ==> index[l] < |list|
  {
  }

  lemma WithoutKey(index: map<string, nat>, l: string)
    requires l in index
    ensures |index - {l}| == |index| - 1
  {
    assert (index - {l}).Keys == index.Keys - {l};
    assert |index| == |index.Keys| && |index - {l}| == |(index - {l}).Keys|;
  }

  lemma WithKey(index: map<string, nat>, l: string, k: nat)
    ensures |index[l := k]| == if l in index then |index| else |index| + 1
  {
    assert index[l := k].Keys == index.Keys + {l};
    assert |index| == |index.Keys| && |index[l := k]| == |index[l := k].Keys|;
  }

  // ----- iterating

  class Iterator {
    const list: seq<LocaleAndWeight>
    var index: nat
    var count: nat
    const length: int

    ghost const origin: seq<nat>
    ghost const ms: seq<Mention>

    ghost predicate Valid()
      reads this
    {
      Finished(list, origin, ms) && index <= |list| && |ToCome()| == length - count
    }

    /** The items that are still to be delivered. */
    ghost function ToCome(): seq<Item>
      reads this
      requires Finished(list, origin, ms) && index <= |list|
    {
      Remaining(list, origin, index)
    }

    constructor (priorities: LocalePriorityList)
      requires Finished(priorities.list, priorities.origin, priorities.mentions)
      requires |priorities.Delivered()| == priorities.GetLength()
      ensures Valid() && ToCome() == priorities.Delivered()
    {
      list, length := priorities.list, priorities.GetLength();
      index, count := 0, 0;
      origin, ms := priorities.origin, priorities.mentions;
    }

    method HasNext() returns (r: bool)
      requires Valid()
      ensures r == (ToCome() != [])
    {
      r := count < length;
    }

    /** Delivers the next locale. */
    method Next() returns (locale: string)
      requires Valid() && ToCome() != []
      modifies this
      ensures Valid() && old(ToCome())[0].locale == locale && ToCome() == old(ToCome())[1..]
    {
      hide Finished;
      while true
        invariant index < |list| && ToCome() == old(ToCome()) && count == old(count)
        decreases |list| - index
      {
        var next := list[index].locale;
        index := index + 1;
        if next.Some? {
          count := count + 1;
          return next.value;
        }
        NothingAtEnd(list, origin, ms, index);
      }
    }

    static lemma NothingAtEnd(list: seq<LocaleAndWeight>, origin: seq<nat>, ms: seq<Mention>, i: nat)
      requires Finished(list, origin, ms) && i <= |list| && Remaining(list, origin, i) != []
      ensures i < |list|
    {
    }
  }
}
