/**
 The trie that a builder makes of a sorted list of strings with values, as
 `icu/common/stringtriebuilder.cpp` chooses its nodes, and that it stores just this list.
 */
module TrieOfLists {
  import opened Common
  import opened TrieNodes
  import opened TrieBytes
  import opened TrieEntries
  import opened TrieSerializing
  import opened TrieWriting

  // ----- ranges of a sorted list

  /** Two strings share their first `unit` bytes. */
  ghost predicate Share(a: seq<Byte>, b: seq<Byte>, unit: nat) {
    unit <= |a| && unit <= |b| && forall k :: 0 <= k < unit ==> a[k] == b[k]
  }

  /** A nonempty range of a sorted list whose strings share their first `unit` bytes. */
  ghost predicate Range(list: seq<Entry>, start: nat, limit: nat, unit: nat) {
    start < limit <= |list| && Ascending(list) &&
    forall i :: start <= i < limit ==> Share(list[start].key, list[i].key, unit)
  }

  /** All strings of the range go on after these bytes. */
  ghost predicate Longer(list: seq<Entry>, start: nat, limit: nat, unit: nat) {
    limit <= |list| && forall i :: start <= i < limit ==> unit < |list[i].key|
  }

  /** Only the first string of a range can end with what all of them share. */
  lemma OthersLonger(list: seq<Entry>, start: nat, limit: nat, unit: nat)
    requires Range(list, start, limit, unit)
    ensures Longer(list, start + 1, limit, unit)
    ensures unit < |list[start].key| ==> Longer(list, start, limit, unit)
  {
    forall i | start < i < limit
      ensures unit < |list[i].key|
    {
      assert Share(list[start].key, list[i].key, unit) && Below(list[start].key, list[i].key);
    }
  }

  lemma Subrange(list: seq<Entry>, start: nat, limit: nat, i: nat, j: nat, unit: nat)
    requires Range(list, start, limit, unit) && start <= i < j <= limit
    ensures Range(list, i, j, unit)
  {
    hide Ascending;
    assert Share(list[start].key, list[i].key, unit);
    forall k | i <= k < j
      ensures Share(list[i].key, list[k].key, unit)
    {
      assert Share(list[start].key, list[k].key, unit);
    }
  }

  /** The bytes after a shared prefix never fall. */
  lemma UnitsRise(list: seq<Entry>, start: nat, limit: nat, unit: nat, i: nat, j: nat)
    requires Range(list, start, limit, unit) && Longer(list, start, limit, unit) && start <= i <= j < limit
    ensures list[i].key[unit] <= list[j].key[unit]
  {
    assert Share(list[start].key, list[i].key, unit) && Share(list[start].key, list[j].key, unit);
    assert i < j ==> Below(list[i].key, list[j].key);
  }

  /** Where the strings with the same next byte as the one at `i` end. */
  ghost function GroupEnd(list: seq<Entry>, i: nat, limit: nat, unit: nat): (j: nat)
    requires i < limit && Longer(list, i, limit, unit)
    ensures i < j <= limit && (forall k :: i <= k < j ==> list[k].key[unit] == list[i].key[unit])
    ensures j < limit ==> list[j].key[unit] != list[i].key[unit]
    decreases limit - i
  {
    if i + 1 == limit || list[i + 1].key[unit] != list[i].key[unit] then i + 1 else GroupEnd(list, i + 1, limit, unit)
  }

  lemma GroupEndIs(list: seq<Entry>, i: nat, limit: nat, unit: nat, j: nat)
    requires i < j <= limit && Longer(list, i, limit, unit)
    requires forall k :: i <= k < j ==> list[k].key[unit] == list[i].key[unit]
    requires j < limit ==> list[j].key[unit] != list[i].key[unit]
    ensures GroupEnd(list, i, limit, unit) == j
  {
  }

  /** The number of different next bytes. */
  ghost function Count(list: seq<Entry>, start: nat, limit: nat, unit: nat): (n: nat)
    requires Longer(list, start, limit, unit)
    ensures start < limit ==> 0 < n
    decreases limit - start
  {
    if limit <= start then 0 else 1 + Count(list, GroupEnd(list, start, limit, unit), limit, unit)
  }

  /** Where the strings with the first `n` next bytes end. */
  ghost function Skip(list: seq<Entry>, i: nat, limit: nat, unit: nat, n: nat): (j: nat)
    requires i <= limit && Longer(list, i, limit, unit) && n <= Count(list, i, limit, unit)
    ensures i <= j <= limit && (0 < n ==> i < j)
    decreases n
  {
    if n == 0 then i else Skip(list, GroupEnd(list, i, limit, unit), limit, unit, n - 1)
  }

  /** Skipping splits a range into two with as many next bytes in all, which do not meet. */
  lemma {:induction false} SkipSplits(list: seq<Entry>, i: nat, limit: nat, unit: nat, n: nat)
    requires i <= limit && Longer(list, i, limit, unit) && n <= Count(list, i, limit, unit)
    ensures Count(list, i, Skip(list, i, limit, unit, n), unit) == n
    ensures Count(list, Skip(list, i, limit, unit, n), limit, unit) == Count(list, i, limit, unit) - n
    ensures var j := Skip(list, i, limit, unit, n);
            0 < n && j < limit ==> list[j - 1].key[unit] != list[j].key[unit]
    decreases n
  {
    var j := Skip(list, i, limit, unit, n);
    if n > 0 {
      var g := GroupEnd(list, i, limit, unit);
      SkipSplits(list, g, limit, unit, n - 1);
      GroupEndIs(list, i, j, unit, g);
    }
  }

  /** Where two strings that share their byte at `k` differ next, or the first one ends. */
  ghost function CommonEnd(a: seq<Byte>, b: seq<Byte>, k: nat): (r: nat)
    requires Share(a, b, k + 1)
    ensures k < r && Share(a, b, r)
    ensures r < |a| && r < |b| ==> a[r] != b[r]
    decreases |a| - k
  {
    if k + 1 < |a| && k + 1 < |b| && a[k + 1] == b[k + 1] then CommonEnd(a, b, k + 1) else k + 1
  }

  /** What the first and the last string of a sorted range share, all of them share. */
  lemma Between(list: seq<Entry>, start: nat, limit: nat, unit: nat)
    requires start < limit <= |list| && Ascending(list) && Share(list[start].key, list[limit - 1].key, unit)
    ensures Range(list, start, limit, unit)
  {
    var a, c := list[start].key, list[limit - 1].key;
    forall i | start <= i < limit
      ensures Share(a, list[i].key, unit)
    {
      if start < i < limit - 1 {
        Squeezed(a, list[i].key, c, unit);
      }
    }
  }

  lemma Squeezed(a: seq<Byte>, b: seq<Byte>, c: seq<Byte>, unit: nat)
    requires Below(a, b) && Below(b, c) && Share(a, c, unit)
    ensures Share(a, b, unit)
  {
    var i :| Differ(a, b, i);
    var j :| Differ(b, c, j);
    assert unit <= i;
  }

  // ----- the trie

  /** A chain of linear-match nodes of at most 16 bytes; only the first one is shorter. */
  ghost function Chunked(s: seq<Byte>, next: Node): Node
    decreases |s|
  {
    if |s| <= MAX_LINEAR_MATCH_LENGTH then Linear(s, next)
    else
      var at := |s| - MAX_LINEAR_MATCH_LENGTH;
      Chunked(s[..at], Linear(s[at..], next))
  }

  /** The node for what follows the first `unit` bytes of a range of strings. */
  ghost function Tree(list: seq<Entry>, start: nat, limit: nat, unit: nat): Node
    requires Range(list, start, limit, unit)
    decreases limit - start, |list[start].key| - unit, 3
  {
    OthersLonger(list, start, limit, unit);
    if unit < |list[start].key| then Match(list, start, limit, unit)
    else if start + 1 == limit then Final(list[start].value)
    else
      Subrange(list, start, limit, start + 1, limit, unit);
      Value(list[start].value, Match(list, start + 1, limit, unit))
  }

  /** The same if all strings are longer: they all go on with the same bytes, or they branch. */
  ghost function Match(list: seq<Entry>, start: nat, limit: nat, unit: nat): Node
    requires Range(list, start, limit, unit) && Longer(list, start, limit, unit)
    decreases limit - start, |list[start].key| - unit, 2
  {
    var a, c := list[start].key, list[limit - 1].key;
    if a[unit] == c[unit] then
      assert Share(a, c, unit);
      var end := CommonEnd(a, c, unit);
      Between(list, start, limit, end);
      Chunked(a[unit..end], Tree(list, start, limit, end))
    else Branch(Edges(list, start, limit, unit))
  }

  /** The edges of a branch: halved until there are at most five. */
  ghost function Edges(list: seq<Entry>, start: nat, limit: nat, unit: nat): Sub
    requires Range(list, start, limit, unit) && Longer(list, start, limit, unit)
    decreases limit - start, |list[start].key| - unit, 1
  {
    var n := Count(list, start, limit, unit);
    if n <= MAX_BRANCH_LINEAR_SUB_NODE_LENGTH then EdgeList(list, start, limit, unit)
    else
      var i := Skip(list, start, limit, unit, n / 2);
      SkipSplits(list, start, limit, unit, n / 2);
      Subrange(list, start, limit, start, i, unit);
      Subrange(list, start, limit, i, limit, unit);
      Split(list[i].key[unit], Edges(list, start, i, unit), Edges(list, i, limit, unit))
  }

  /** The string of a range that shares one more byte and ends there. */
  ghost predicate Ends(list: seq<Entry>, start: nat, end: nat, unit: nat)
    requires start < end <= |list|
  {
    end == start + 1 && |list[start].key| == unit + 1
  }

  ghost function EdgeList(list: seq<Entry>, start: nat, limit: nat, unit: nat): Sub
    requires Range(list, start, limit, unit) && Longer(list, start, limit, unit)
    decreases limit - start, |list[start].key| - unit, 0
  {
    var b := list[start].key[unit];
    var end := GroupEnd(list, start, limit, unit);
    GroupRange(list, start, limit, unit);
    if end == limit then LastEdge(b, Tree(list, start, limit, unit + 1))
    else
      Subrange(list, start, limit, end, limit, unit);
      var rest := EdgeList(list, end, limit, unit);
      if Ends(list, start, end, unit) then FinalEdge(b, list[start].value, rest)
      else JumpEdge(b, Tree(list, start, end, unit + 1), rest)
  }

  lemma GroupRange(list: seq<Entry>, start: nat, limit: nat, unit: nat)
    requires Range(list, start, limit, unit) && Longer(list, start, limit, unit)
    ensures Range(list, start, GroupEnd(list, start, limit, unit), unit + 1)
  {
    hide Ascending;
    var end := GroupEnd(list, start, limit, unit);
    forall i | start <= i < end
      ensures Share(list[start].key, list[i].key, unit + 1)
    {
      assert Share(list[start].key, list[i].key, unit);
    }
  }

  // ----- what the trie stores

  /** The value of the first string of a range that goes on with just `more`. */
  ghost function Find(list: seq<Entry>, start: nat, limit: nat, unit: nat, more: seq<Byte>): Option<int>
    requires limit <= |list|
    decreases limit - start
  {
    if limit <= start then None
    else if unit <= |list[start].key| && list[start].key[unit..] == more then Some(list[start].value)
    else Find(list, start + 1, limit, unit, more)
  }

  lemma {:induction false} FindConcat(list: seq<Entry>, start: nat, mid: nat, limit: nat, unit: nat, more: seq<Byte>)
    requires start <= mid <= limit <= |list|
    ensures Find(list, start, limit, unit, more) ==
            if Find(list, start, mid, unit, more).Some? then Find(list, start, mid, unit, more)
            else Find(list, mid, limit, unit, more)
    decreases mid - start
  {
    if start < mid {
      FindConcat(list, start + 1, mid, limit, unit, more);
    }
  }

  /** A string that is found in a range goes on as one of the strings there. */
  lemma {:induction false} FoundIn(list: seq<Entry>, start: nat, limit: nat, unit: nat, more: seq<Byte>)
    returns (i: nat)
    requires limit <= |list| && Find(list, start, limit, unit, more).Some?
    ensures start <= i < limit && unit <= |list[i].key| && list[i].key[unit..] == more
    decreases limit - start
  {
    if unit <= |list[start].key| && list[start].key[unit..] == more {
      i := start;
    } else {
      i := FoundIn(list, start + 1, limit, unit, more);
    }
  }

  /** Where all strings of a range go on with `s`, what follows it is found there. */
  lemma {:induction false} FindShared(list: seq<Entry>, start: nat, limit: nat, unit: nat, s: seq<Byte>,
                                      more: seq<Byte>)
    requires limit <= |list|
    requires forall i :: start <= i < limit ==> unit + |s| <= |list[i].key| && list[i].key[unit..unit + |s|] == s
    ensures Find(list, start, limit, unit, more) ==
            if s <= more then Find(list, start, limit, unit + |s|, more[|s|..]) else None
    decreases limit - start
  {
    if start < limit {
      FindShared(list, start + 1, limit, unit, s, more);
      var key := list[start].key;
      assert key[unit..] == s + key[unit + |s|..];
      if s <= more {
        assert more == s + more[|s|..];
      }
    }
  }

  lemma {:induction false} ChunkedStores(s: seq<Byte>, next: Node, more: seq<Byte>)
    requires s != [] && next.WellFormed()
    ensures Chunked(s, next).WellFormed() && !Chunked(s, next).IsValue()
    ensures Chunked(s, next).LookUp(more) == if s <= more then next.LookUp(more[|s|..]) else None
    ensures Laid(next) ==> Laid(Chunked(s, next))
    ensures Storable(next) ==> Storable(Chunked(s, next))
    decreases |s|
  {
    if |s| > MAX_LINEAR_MATCH_LENGTH {
      var at := |s| - MAX_LINEAR_MATCH_LENGTH;
      ChunkedStores(s[..at], Linear(s[at..], next), more);
      assert s == s[..at] + s[at..];
      if s[..at] <= more {
        assert more == s[..at] + more[at..];
        assert s <= more <==> s[at..] <= more[at..];
        assert s <= more ==> more[at..][|s| - at..] == more[|s|..];
      }
    }
  }

  /** The node stores a range of strings, beyond their first `unit` bytes. */
  ghost predicate Stores(node: Node, list: seq<Entry>, start: nat, limit: nat, unit: nat)
    requires limit <= |list|
  {
    node.WellFormed() && Laid(node) && forall more :: node.LookUp(more) == Find(list, start, limit, unit, more)
  }

  /** The edges store a range of strings, by the byte after the first `unit` ones. */
  ghost predicate SubStores(sub: Sub, list: seq<Entry>, start: nat, limit: nat, unit: nat)
    requires start < limit && Longer(list, start, limit, unit)
  {
    sub.Ordered(list[start].key[unit], High(list, limit, unit)) && SubLaid(sub) &&
    sub.Size() == Count(list, start, limit, unit) &&
    forall b, more :: sub.LookUp(b, more) == Find(list, start, limit, unit, [b] + more)
  }

  /** One more than the last byte of a range. */
  ghost function High(list: seq<Entry>, limit: nat, unit: nat): int
    requires 0 < limit <= |list| && unit < |list[limit - 1].key|
  {
    list[limit - 1].key[unit] as int + 1
  }

  lemma {:induction false} TreeStores(list: seq<Entry>, start: nat, limit: nat, unit: nat)
    requires Range(list, start, limit, unit)
    ensures Stores(Tree(list, start, limit, unit), list, start, limit, unit)
    decreases limit - start, |list[start].key| - unit, 3
  {
    hide Match, Find, Ascending, Node.WellFormed;
    OthersLonger(list, start, limit, unit);
    if unit < |list[start].key| {
      MatchStores(list, start, limit, unit);
    } else {
      var key := list[start].key;
      assert Share(key, key, unit) && key[unit..] == [];
      if start + 1 < limit {
        Subrange(list, start, limit, start + 1, limit, unit);
        MatchStores(list, start + 1, limit, unit);
        var next := Match(list, start + 1, limit, unit);
        ValueStores(list, start, limit, unit, next);
      } else {
        FinalStores(list, start, unit);
      }
    }
  }

  lemma FinalStores(list: seq<Entry>, start: nat, unit: nat)
    requires start < |list| && unit == |list[start].key|
    ensures Stores(Final(list[start].value), list, start, start + 1, unit)
  {
    assert list[start].key[unit..] == [];
    forall more
      ensures Final(list[start].value).LookUp(more) == Find(list, start, start + 1, unit, more)
    {
      assert Find(list, start + 1, start + 1, unit, more) == None;
    }
  }

  lemma ValueStores(list: seq<Entry>, start: nat, limit: nat, unit: nat, next: Node)
    requires start < limit <= |list| && unit == |list[start].key|
    requires Stores(next, list, start + 1, limit, unit) && !next.IsValue()
    ensures Stores(Value(list[start].value, next), list, start, limit, unit)
  {
    assert list[start].key[unit..] == [];
  }

  lemma {:induction false} MatchStores(list: seq<Entry>, start: nat, limit: nat, unit: nat)
    requires Range(list, start, limit, unit) && Longer(list, start, limit, unit)
    ensures Stores(Match(list, start, limit, unit), list, start, limit, unit) &&
            !Match(list, start, limit, unit).IsValue()
    decreases limit - start, |list[start].key| - unit, 2
  {
    hide Tree, Edges, Find, Ascending, Chunked, Stores, SubStores;
    var a, c := list[start].key, list[limit - 1].key;
    assert a[unit] == c[unit] ==> Share(a, c, unit);
    if a[unit] == c[unit] {
      assert Share(a, c, unit + 1);
      var end := CommonEnd(a, c, unit);
      Between(list, start, limit, end);
      TreeStores(list, start, limit, end);
      ChainStores(list, start, limit, unit, end, Tree(list, start, limit, end));
    } else {
      EdgesStore(list, start, limit, unit);
      BranchStores(list, start, limit, unit, Edges(list, start, limit, unit));
    }
  }

  /** What all strings share, before a node that stores the rest of them. */
  lemma ChainStores(list: seq<Entry>, start: nat, limit: nat, unit: nat, end: nat, next: Node)
    requires Range(list, start, limit, end) && unit < end && Stores(next, list, start, limit, end)
    ensures Stores(Chunked(list[start].key[unit..end], next), list, start, limit, unit)
    ensures !Chunked(list[start].key[unit..end], next).IsValue()
  {
    hide Ascending, Chunked, Find;
    var s := list[start].key[unit..end];
    assert Share(list[start].key, list[start].key, end);
    forall i | start <= i < limit
      ensures end <= |list[i].key| && list[i].key[unit..end] == s
    {
      assert Share(list[start].key, list[i].key, end);
    }
    forall more
      ensures Chunked(s, next).LookUp(more) == Find(list, start, limit, unit, more)
    {
      ChunkedStores(s, next, more);
      FindShared(list, start, limit, unit, s, more);
    }
    ChunkedStores(s, next, []);
  }

  lemma BranchStores(list: seq<Entry>, start: nat, limit: nat, unit: nat, sub: Sub)
    requires Range(list, start, limit, unit) && Longer(list, start, limit, unit) &&
             SubStores(sub, list, start, limit, unit)
    requires list[start].key[unit] != list[limit - 1].key[unit]
    ensures Stores(Branch(sub), list, start, limit, unit)
  {
    hide Ascending, Find;
    ManyUnits(list, start, limit, unit);
    OrderedWider(sub, list[start].key[unit], High(list, limit, unit), 0, 0x100);
    forall more
      ensures Branch(sub).LookUp(more) == Find(list, start, limit, unit, more)
    {
      if more == [] {
        if Find(list, start, limit, unit, more).Some? {
          var i := FoundIn(list, start, limit, unit, more);
          assert false;
        }
      } else {
        assert more == [more[0]] + more[1..];
      }
    }
  }

  lemma ManyUnits(list: seq<Entry>, start: nat, limit: nat, unit: nat)
    requires Range(list, start, limit, unit) && Longer(list, start, limit, unit)
    requires list[start].key[unit] != list[limit - 1].key[unit]
    ensures 2 <= Count(list, start, limit, unit)
  {
    hide Ascending;
    var end := GroupEnd(list, start, limit, unit);
    assert end < limit;
    assert Count(list, end, limit, unit) > 0;
  }

  lemma {:induction false} OrderedWider(sub: Sub, lo: int, hi: int, low: int, high: int)
    requires sub.Ordered(lo, hi) && low <= lo && hi <= high
    ensures sub.Ordered(low, high)
  {
    match sub
    case Split(key, less, ge) =>
      OrderedWider(less, lo, key, low, key);
      OrderedWider(ge, key, hi, key, high);
    case FinalEdge(key, _, rest) => OrderedWider(rest, key + 1, hi, key + 1, high);
    case JumpEdge(key, _, rest) => OrderedWider(rest, key + 1, hi, key + 1, high);
    case LastEdge(_, _) =>
  }

  lemma EdgesStep(list: seq<Entry>, start: nat, limit: nat, unit: nat, i: nat)
    requires Range(list, start, limit, unit) && Longer(list, start, limit, unit)
    requires i == Skip(list, start, limit, unit, Count(list, start, limit, unit) / 2)
    ensures Count(list, start, limit, unit) <= MAX_BRANCH_LINEAR_SUB_NODE_LENGTH ==>
              Edges(list, start, limit, unit) == EdgeList(list, start, limit, unit)
    ensures Count(list, start, limit, unit) > MAX_BRANCH_LINEAR_SUB_NODE_LENGTH ==>
              start < i < limit && Halves(list, start, i, limit, unit) &&
              Edges(list, start, limit, unit) ==
              Split(list[i].key[unit], Edges(list, start, i, unit), Edges(list, i, limit, unit))
  {
    hide EdgeList, Ascending, Share;
    SkipSplits(list, start, limit, unit, Count(list, start, limit, unit) / 2);
    if start < i < limit {
      Subrange(list, start, limit, start, i, unit);
      Subrange(list, start, limit, i, limit, unit);
    }
  }

  /** The two parts of a range that a comparison byte tells apart. */
  ghost predicate Halves(list: seq<Entry>, start: nat, i: nat, limit: nat, unit: nat) {
    start < i < limit && Range(list, start, i, unit) && Range(list, i, limit, unit) &&
    Longer(list, start, i, unit) && Longer(list, i, limit, unit) && Longer(list, start, limit, unit) &&
    list[i - 1].key[unit] != list[i].key[unit] &&
    Count(list, start, i, unit) == Count(list, start, limit, unit) / 2 &&
    Count(list, i, limit, unit) == Count(list, start, limit, unit) - Count(list, start, i, unit)
  }

  lemma {:induction false} EdgesStore(list: seq<Entry>, start: nat, limit: nat, unit: nat)
    requires Range(list, start, limit, unit) && Longer(list, start, limit, unit)
    ensures SubStores(Edges(list, start, limit, unit), list, start, limit, unit)
    decreases limit - start, |list[start].key| - unit, 1
  {
    hide Edges, EdgeList, Find, Ascending, Share, SubStores;
    var n := Count(list, start, limit, unit);
    var i := Skip(list, start, limit, unit, n / 2);
    EdgesStep(list, start, limit, unit, i);
    if n <= MAX_BRANCH_LINEAR_SUB_NODE_LENGTH {
      ListStores(list, start, limit, unit);
    } else {
      EdgesStore(list, start, i, unit);
      EdgesStore(list, i, limit, unit);
      SplitStores(list, start, i, limit, unit, Edges(list, start, i, unit), Edges(list, i, limit, unit));
    }
  }

  lemma SplitStores(list: seq<Entry>, start: nat, i: nat, limit: nat, unit: nat, less: Sub, ge: Sub)
    requires Range(list, start, limit, unit) && Halves(list, start, i, limit, unit)
    requires SubStores(less, list, start, i, unit) && SubStores(ge, list, i, limit, unit)
    requires MAX_BRANCH_LINEAR_SUB_NODE_LENGTH < Count(list, start, limit, unit)
    ensures SubStores(Split(list[i].key[unit], less, ge), list, start, limit, unit)
  {
    hide Find, Ascending, Count, Share;
    var lo, key, hi := list[start].key[unit], list[i].key[unit], High(list, limit, unit);
    var sub := Split(key, less, ge);
    UnitsRise(list, start, limit, unit, start, i - 1);
    UnitsRise(list, start, limit, unit, i - 1, i);
    OrderedWider(less, lo, High(list, i, unit), lo, key);
    forall b, more
      ensures sub.LookUp(b, more) == Find(list, start, limit, unit, [b] + more)
    {
      FindConcat(list, start, i, limit, unit, [b] + more);
      if !less.HasKey(b) {
        NoSuchKey(less, b, more);
      } else {
        KeysInRange(less, lo, key, b);
        if ge.HasKey(b) {
          KeysInRange(ge, key, hi, b);
        } else {
          NoSuchKey(ge, b, more);
        }
      }
    }
    assert sub.Ordered(lo, hi) && SubLaid(sub);
  }

  lemma {:induction false} ListStores(list: seq<Entry>, start: nat, limit: nat, unit: nat)
    requires Range(list, start, limit, unit) && Longer(list, start, limit, unit)
    requires Count(list, start, limit, unit) <= MAX_BRANCH_LINEAR_SUB_NODE_LENGTH
    ensures SubStores(EdgeList(list, start, limit, unit), list, start, limit, unit)
    ensures !EdgeList(list, start, limit, unit).Split?
    decreases limit - start, |list[start].key| - unit, 0
  {
    hide Tree, Find, Ascending, SubStores, Stores, Share;
    var b := list[start].key[unit];
    var end := GroupEnd(list, start, limit, unit);
    GroupRange(list, start, limit, unit);
    TreeStores(list, start, end, unit + 1);
    if end == limit {
      LastStores(list, start, limit, unit, Tree(list, start, limit, unit + 1));
    } else {
      Subrange(list, start, limit, end, limit, unit);
      ListStores(list, end, limit, unit);
      var rest := EdgeList(list, end, limit, unit);
      if Ends(list, start, end, unit) {
        FinalStores(list, start, unit + 1);
        EdgeStores(list, start, limit, unit, rest, FinalEdge(b, list[start].value, rest), Final(list[start].value));
      } else {
        var target := Tree(list, start, end, unit + 1);
        EdgeStores(list, start, limit, unit, rest, JumpEdge(b, target, rest), target);
      }
    }
  }

  /** A node for the strings of one group makes an edge. */
  lemma EdgeStores(list: seq<Entry>, start: nat, limit: nat, unit: nat, rest: Sub, sub: Sub, target: Node)
    requires Range(list, start, limit, unit) && Longer(list, start, limit, unit)
    requires Count(list, start, limit, unit) <= MAX_BRANCH_LINEAR_SUB_NODE_LENGTH
    requires GroupEnd(list, start, limit, unit) < limit
    requires Stores(target, list, start, GroupEnd(list, start, limit, unit), unit + 1)
    requires SubStores(rest, list, GroupEnd(list, start, limit, unit), limit, unit) && !rest.Split?
    requires sub == JumpEdge(list[start].key[unit], target, rest) ||
             (target.Final? && sub == FinalEdge(list[start].key[unit], target.value, rest))
    ensures SubStores(sub, list, start, limit, unit)
  {
    hide Find, Ascending, Share;
    var key, end := list[start].key[unit], GroupEnd(list, start, limit, unit);
    UnitsRise(list, start, limit, unit, start, end);
    OrderedWider(rest, list[end].key[unit], High(list, limit, unit), key + 1, High(list, limit, unit));
    UnitsRise(list, start, limit, unit, start, limit - 1);
    forall b, more
      ensures sub.LookUp(b, more) == Find(list, start, limit, unit, [b] + more)
    {
      FindConcat(list, start, end, limit, unit, [b] + more);
      GroupFinds(list, start, limit, unit, b, more);
      if b == key {
        if rest.HasKey(b) {
          KeysInRange(rest, key + 1, High(list, limit, unit), b);
        }
        NoSuchKey(rest, b, more);
        assert target.LookUp(more) == Find(list, start, end, unit + 1, more);
      } else {
        assert rest.LookUp(b, more) == Find(list, end, limit, unit, [b] + more);
      }
    }
  }

  lemma LastStores(list: seq<Entry>, start: nat, limit: nat, unit: nat, next: Node)
    requires Range(list, start, limit, unit) && Longer(list, start, limit, unit)
    requires GroupEnd(list, start, limit, unit) == limit && Stores(next, list, start, limit, unit + 1)
    ensures SubStores(LastEdge(list[start].key[unit], next), list, start, limit, unit)
  {
    hide Find, Ascending, Share;
    assert Count(list, limit, limit, unit) == 0;
    UnitsRise(list, start, limit, unit, start, limit - 1);
    var sub := LastEdge(list[start].key[unit], next);
    forall b, more
      ensures sub.LookUp(b, more) == Find(list, start, limit, unit, [b] + more)
    {
      GroupFinds(list, start, limit, unit, b, more);
    }
  }

  /** Within a group, a string is found beyond the byte of the group. */
  lemma GroupFinds(list: seq<Entry>, start: nat, limit: nat, unit: nat, b: Byte, more: seq<Byte>)
    requires start < limit && Longer(list, start, limit, unit)
    ensures Find(list, start, GroupEnd(list, start, limit, unit), unit, [b] + more) ==
            if b == list[start].key[unit] then Find(list, start, GroupEnd(list, start, limit, unit), unit + 1, more)
              else None
  {
    hide Find;
    var key, end := list[start].key[unit], GroupEnd(list, start, limit, unit);
    forall i | start <= i < end
      ensures unit + |[key]| <= |list[i].key| && list[i].key[unit..unit + |[key]|] == [key]
    {
    }
    FindShared(list, start, end, unit, [key], [b] + more);
    assert ([b] + more)[|[key]|..] == more;
  }

  // ----- its values

  ghost predicate Int32Values(list: seq<Entry>) {
    forall i :: 0 <= i < |list| ==> IsInt32(list[i].value)
  }

  lemma {:induction false} TreeStorable(list: seq<Entry>, start: nat, limit: nat, unit: nat)
    requires Range(list, start, limit, unit) && Int32Values(list)
    ensures Storable(Tree(list, start, limit, unit))
    decreases limit - start, |list[start].key| - unit, 3
  {
    hide Match, Ascending, Share;
    OthersLonger(list, start, limit, unit);
    if unit < |list[start].key| {
      MatchStorable(list, start, limit, unit);
    } else if start + 1 < limit {
      Subrange(list, start, limit, start + 1, limit, unit);
      MatchStorable(list, start + 1, limit, unit);
    }
  }

  lemma {:induction false} MatchStorable(list: seq<Entry>, start: nat, limit: nat, unit: nat)
    requires Range(list, start, limit, unit) && Longer(list, start, limit, unit) && Int32Values(list)
    ensures Storable(Match(list, start, limit, unit))
    decreases limit - start, |list[start].key| - unit, 2
  {
    hide Tree, Edges, Ascending, Chunked, Node.WellFormed;
    var a, c := list[start].key, list[limit - 1].key;
    if a[unit] == c[unit] {
      assert Share(a, c, unit);
      var end := CommonEnd(a, c, unit);
      Between(list, start, limit, end);
      TreeStores(list, start, limit, end);
      TreeStorable(list, start, limit, end);
      ChunkedStores(a[unit..end], Tree(list, start, limit, end), []);
    } else {
      EdgesStorable(list, start, limit, unit);
    }
  }

  lemma {:induction false} EdgesStorable(list: seq<Entry>, start: nat, limit: nat, unit: nat)
    requires Range(list, start, limit, unit) && Longer(list, start, limit, unit) && Int32Values(list)
    ensures SubStorable(Edges(list, start, limit, unit))
    decreases limit - start, |list[start].key| - unit, 1
  {
    hide Edges, EdgeList, Ascending, Share;
    var n := Count(list, start, limit, unit);
    var i := Skip(list, start, limit, unit, n / 2);
    EdgesStep(list, start, limit, unit, i);
    if n <= MAX_BRANCH_LINEAR_SUB_NODE_LENGTH {
      ListStorable(list, start, limit, unit);
    } else {
      EdgesStorable(list, start, i, unit);
      EdgesStorable(list, i, limit, unit);
    }
  }

  lemma {:induction false} ListStorable(list: seq<Entry>, start: nat, limit: nat, unit: nat)
    requires Range(list, start, limit, unit) && Longer(list, start, limit, unit) && Int32Values(list)
    ensures SubStorable(EdgeList(list, start, limit, unit))
    decreases limit - start, |list[start].key| - unit, 0
  {
    hide Tree, Ascending, Share;
    var end := GroupEnd(list, start, limit, unit);
    GroupRange(list, start, limit, unit);
    TreeStorable(list, start, end, unit + 1);
    if end < limit {
      Subrange(list, start, limit, end, limit, unit);
      ListStorable(list, end, limit, unit);
    }
  }

  // ----- the whole list

  lemma {:induction false} FindInList(list: seq<Entry>, start: nat, key: seq<Byte>)
    requires Ascending(list) && start <= |list|
    ensures forall v :: Find(list, start, |list|, 0, key) == Some(v) <==> Entry(key, v) in list[start..]
    decreases |list| - start
  {
    if start < |list| {
      FindInList(list, start + 1, key);
      assert list[start].key[0..] == list[start].key;
      assert list[start..] == [list[start]] + list[start + 1..];
      if list[start].key == key {
        assert forall i :: start < i < |list| ==> Below(key, list[i].key);
        assert forall e :: e in list[start + 1..] ==> e.key != key;
      }
    }
  }

  lemma WholeRange(list: seq<Entry>)
    requires list != [] && Ascending(list)
    ensures Range(list, 0, |list|, 0)
  {
  }

  /** The trie of a sorted list of strings with values stores all of the list and nothing else, and so do its bytes. */
  lemma TreeOfList(list: seq<Entry>, node: Node)
    requires Range(list, 0, |list|, 0) && Int32Values(list) && node == Tree(list, 0, |list|, 0)
    ensures node.WellFormed() && (|Serialize(node)| < 0x8000_0000 ==> Encodes(Serialize(node), 0, node))
    ensures forall key, v :: node.LookUp(key) == Some(v) <==> Entry(key, v) in list
  {
    hide Tree, Find, Ascending, Node.WellFormed, Encodes, NodeBefore;
    TreeStores(list, 0, |list|, 0);
    TreeStorable(list, 0, |list|, 0);
    if |Serialize(node)| < 0x8000_0000 {
      SerializeRoundTrip(node);
    }
    assert list[0..] == list;
    forall key, v
      ensures node.LookUp(key) == Some(v) <==> Entry(key, v) in list
    {
      FindInList(list, 0, key);
    }
  }
}
