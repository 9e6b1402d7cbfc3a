/**
 Building a trie with the fast option, `icu/common/stringtriebuilder.cpp` and
 `icu/common/bytestriebuilder.cpp`: from added strings to bytes that encode just these.
 */
module TrieBuilding {
  import opened Common
  import opened ErrorCodes
  import opened TrieNodes
  import opened TrieBytes
  import opened TrieEntries
  import opened TrieElements
  import opened TrieWriting
  import opened TrieSerializing
  import opened TrieBuilders
  import opened TrieOfLists

  /** Split branches around the edges that `body` ends with: the innermost one is the last. */
  ghost function Wrapped(middleUnits: seq<Byte>, lessThan: seq<nat>, body: seq<Byte>): seq<Byte>
    requires |middleUnits| == |lessThan| && forall k :: 0 <= k < |lessThan| ==> lessThan[k] <= |body|
  {
    if middleUnits == [] then body
    else
      var last := |middleUnits| - 1;
      var split := [middleUnits[last]] + (DeltaBytes(|body| - lessThan[last]) + body);
      assert |split| >= |body|;
      Wrapped(middleUnits[..last], lessThan[..last], split)
  }

  /** Around the less-than part of one more split. */
  lemma WrappedSplit(middleUnits: seq<Byte>, lessThan: seq<nat>, key: Byte, less: Sub, ge: Sub, w: seq<Byte>)
    requires |middleUnits| == |lessThan| && forall k :: 0 <= k < |lessThan| ==> lessThan[k] <= |w|
    ensures |w| < |SubBefore(less, w)| < |SubBefore(ge, SubBefore(less, w))| < |SubBefore(Split(key, less, ge), w)|
    ensures Wrapped(middleUnits + [key], lessThan + [|SubBefore(less, w)|], SubBefore(ge, SubBefore(less, w))) ==
            Wrapped(middleUnits, lessThan, SubBefore(Split(key, less, ge), w))
  {
    SplitBytes(key, less, ge, w);
    hide SubBefore, DeltaBytes;
    var w1 := SubBefore(less, w);
    var ms, ls := middleUnits + [key], lessThan + [|w1|];
    assert ms[..|middleUnits|] == middleUnits && ls[..|lessThan|] == lessThan;
  }

  lemma SplitBytes(key: Byte, less: Sub, ge: Sub, w: seq<Byte>)
    ensures var w1 := SubBefore(less, w);
            var w2 := SubBefore(ge, w1);
            |w| < |w1| < |w2| < |SubBefore(Split(key, less, ge), w)| &&
            SubBefore(Split(key, less, ge), w) == [key] + (DeltaBytes(|w2| - |w1|) + w2)
  {
    hide DeltaBytes;
  }

  lemma LinearBytes(s: seq<Byte>, next: Node, w: seq<Byte>)
    requires 1 <= |s| <= MAX_LINEAR_MATCH_LENGTH
    ensures NodeBefore(Linear(s, next), w) == [(MIN_LINEAR_MATCH + |s| - 1) as Byte] + (s + NodeBefore(next, w))
  {
  }

  /** The last 16 of more bytes make a node of their own. */
  lemma ChunkedStep(key: seq<Byte>, unit: nat, end: nat, next: Node)
    requires unit <= end <= |key|
    ensures end - unit <= MAX_LINEAR_MATCH_LENGTH ==> Chunked(key[unit..end], next) == Linear(key[unit..end], next)
    ensures end - unit > MAX_LINEAR_MATCH_LENGTH ==>
              var at := end - MAX_LINEAR_MATCH_LENGTH;
              Chunked(key[unit..end], next) ==
                Chunked(key[unit..at], Linear(key[at..at + MAX_LINEAR_MATCH_LENGTH], next))
  {
    if end - unit > MAX_LINEAR_MATCH_LENGTH {
      var s, at := key[unit..end], end - unit - MAX_LINEAR_MATCH_LENGTH;
      assert s[..at] == key[unit..unit + at] && s[at..] == key[unit + at..end];
    }
  }

  /** What the first edge of a list is. */
  lemma EdgeListStep(list: seq<Entry>, start: nat, limit: nat, unit: nat)
    requires Range(list, start, limit, unit) && Longer(list, start, limit, unit)
    ensures var end, b := GroupEnd(list, start, limit, unit), list[start].key[unit];
            start < end && unit < |list[start].key| &&
            Range(list, start, end, unit + 1) && (end < limit ==> Range(list, end, limit, unit)) &&
            EdgeList(list, start, limit, unit) ==
            if end == limit then LastEdge(b, Tree(list, start, limit, unit + 1))
            else if Ends(list, start, end, unit) then FinalEdge(b, list[start].value, EdgeList(list, end, limit, unit))
            else JumpEdge(b, Tree(list, start, end, unit + 1), EdgeList(list, end, limit, unit))
  {
    hide Ascending, Tree;
    var end := GroupEnd(list, start, limit, unit);
    GroupRange(list, start, limit, unit);
    if end < limit {
      Subrange(list, start, limit, end, limit, unit);
    }
  }

  /** Writes the nodes of a sorted list of elements, from the last one to the first one. */
  class StringTrieBuilder {
    const elements: seq<Element>
    const strings: seq<Byte>
    const out: BytesTrieBuilder
    ghost const list: seq<Entry>

    ghost predicate Valid()
      reads out
    {
      out.Valid() && Pooled(elements, strings, list) && Ascending(list)
    }

    constructor (elements: seq<Element>, strings: seq<Byte>, out: BytesTrieBuilder, ghost list: seq<Entry>)
      requires out.Valid() && Pooled(elements, strings, list) && Ascending(list)
      ensures Valid() && this.elements == elements && this.strings == strings && this.out == out && this.list == list
    {
      this.elements, this.strings, this.out, this.list := elements, strings, out, list;
    }

    // ----- what the elements are

    function ElementStringLength(i: nat): (r: nat)
      requires Pooled(elements, strings, list) && i < |list|
      ensures r == |list[i].key|
    {
      elements[i].GetStringLength(strings, list[i].key)
    }

    function ElementUnit(i: nat, unit: nat): (r: Byte)
      requires Pooled(elements, strings, list) && i < |list| && unit < |list[i].key|
      ensures r == list[i].key[unit]
    {
      elements[i].CharAt(unit, strings, list[i].key)
    }

    function ElementValue(i: nat): (r: int)
      requires Pooled(elements, strings, list) && i < |list|
      ensures r == list[i].value
    {
      elements[i].value
    }

    /** Where the first and the last string of a range, which share their byte at `unit`, differ next. */
    method GetLimitOfLinearMatch(first: nat, last: nat, unit: nat) returns (end: nat)
      requires Pooled(elements, strings, list) && Ascending(list) && first <= last < |list|
      requires Share(list[first].key, list[last].key, unit + 1)
      ensures end == CommonEnd(list[first].key, list[last].key, unit)
    {
      hide Ascending, Pooled;
      var minStringLength := ElementStringLength(first);
      end := unit + 1;
      while true
        invariant unit < end && Share(list[first].key, list[last].key, end)
        invariant CommonEnd(list[first].key, list[last].key, end - 1) ==
                  CommonEnd(list[first].key, list[last].key, unit)
        decreases minStringLength - end
      {
        if end >= minStringLength {
          return;
        }
        GoesOn(first, last, end);
        if ElementUnit(first, end) != ElementUnit(last, end) {
          return;
        }
        end := end + 1;
      }
    }

    /** A string that shares all of its start with an earlier, longer one is longer, too. */
    lemma GoesOn(first: nat, last: nat, end: nat)
      requires Ascending(list) && first <= last < |list| && end < |list[first].key|
      requires Share(list[first].key, list[last].key, end)
      ensures end < |list[last].key|
    {
      assert first < last ==> Below(list[first].key, list[last].key);
    }

    /** The end of a group, where there is one before the limit. */
    method IndexOfElementWithNextUnit(start: nat, unit: nat, ghost limit: nat) returns (i: nat)
      requires Pooled(elements, strings, list) && start < limit && Longer(list, start, limit, unit)
      requires GroupEnd(list, start, limit, unit) < limit
      ensures i == GroupEnd(list, start, limit, unit)
    {
      hide Pooled;
      var byte := ElementUnit(start, unit);
      i := start + 1;
      while byte == ElementUnit(i, unit)
        invariant start < i <= GroupEnd(list, start, limit, unit)
        decreases limit - i
      {
        i := i + 1;
      }
    }

    method CountElementUnits(start: nat, limit: nat, unit: nat) returns (length: nat)
      requires Pooled(elements, strings, list) && start < limit && Longer(list, start, limit, unit)
      ensures length == Count(list, start, limit, unit)
    {
      hide Pooled;
      length := 0;
      var i := start;
      while i < limit
        invariant start <= i <= limit && length + Count(list, i, limit, unit) == Count(list, start, limit, unit)
      {
        ghost var first: nat := i;
        var byte := ElementUnit(i, unit);
        i := i + 1;
        while i < limit && byte == ElementUnit(i, unit)
          invariant first < i <= limit && forall k :: first <= k < i ==> list[k].key[unit] == byte
        {
          i := i + 1;
        }
        GroupEndIs(list, first, limit, unit, i);
        length := length + 1;
      }
    }

    /** Skips some groups, but not all of a range. */
    method SkipElementsBySomeUnits(start: nat, unit: nat, count: nat, ghost limit: nat) returns (i: nat)
      requires Pooled(elements, strings, list) && start < limit && Longer(list, start, limit, unit)
      requires 0 < count < Count(list, start, limit, unit)
      ensures i == Skip(list, start, limit, unit, count)
    {
      hide Pooled;
      i := start;
      var n := count;
      while 0 < n
        invariant start <= i < limit && n < Count(list, i, limit, unit)
        invariant Skip(list, i, limit, unit, n) == Skip(list, start, limit, unit, count)
      {
        i := IndexOfElementWithNextUnit(i, unit, limit);
        n := n - 1;
      }
    }

    // ----- writing

    method WriteElementUnits(i: nat, unit: nat, length: nat)
      requires Valid() && i < |list| && unit + length <= |list[i].key|
      modifies out, out.bytes
      ensures Valid() && (out.bytes == old(out.bytes) || fresh(out.bytes))
      ensures out.Written() == list[i].key[unit..unit + length] + old(out.Written())
    {
      var s := elements[i].GetString(strings, list[i].key);
      var offset := out.WriteBytes(s[unit..unit + length]);
    }

    /** Writes the lead byte of a node, and before it the value of the string that ends there. */
    method WriteValueAndType(hasValue: bool, value: int, node: Byte) returns (offset: nat)
      requires Valid()
      modifies out, out.bytes
      ensures Valid() && (out.bytes == old(out.bytes) || fresh(out.bytes)) && offset == |out.Written()|
      ensures out.Written() ==
              (if hasValue then ValueBytes(value, false) else []) + ([node] + old(out.Written()))
    {
      hide ValueBytes, Encodes;
      offset := out.Write(node);
      if hasValue {
        offset := out.WriteValueAndFinal(value, false);
      }
    }

    /** Writes the node for a range of strings, beyond the bytes that they share. */
    method WriteNode(start: nat, limit: nat, unit: nat) returns (offset: nat)
      requires Valid() && Range(list, start, limit, unit)
      modifies out, out.bytes
      ensures Valid() && (out.bytes == old(out.bytes) || fresh(out.bytes)) && offset == |out.Written()|
      ensures out.Written() == NodeBefore(Tree(list, start, limit, unit), old(out.Written()))
      decreases limit - start, |list[start].key| - unit, 5
    {
      hide Match, ValueBytes, Encodes, Ascending, Pooled;
      OthersLonger(list, start, limit, unit);
      var hasValue, value, first := false, 0, start;
      if unit == ElementStringLength(start) {
        value := ElementValue(first);
        first := first + 1;
        if first == limit {
          offset := out.WriteValueAndFinal(value, true);
          return;
        }
        hasValue := true;
        Subrange(list, start, limit, first, limit, unit);
      }
      var minUnit, maxUnit := ElementUnit(first, unit), ElementUnit(limit - 1, unit);
      var type_;
      if minUnit == maxUnit {
        type_ := WriteMatch(first, limit, unit);
      } else {
        type_ := WriteBranch(first, limit, unit);
      }
      offset := WriteValueAndType(hasValue, value, type_);
    }

    /** Writes linear-match nodes up to where strings differ, but for the lead byte of the first one. */
    method WriteMatch(start: nat, limit: nat, unit: nat) returns (type_: Byte)
      requires Valid() && Range(list, start, limit, unit) && Longer(list, start, limit, unit)
      requires list[start].key[unit] == list[limit - 1].key[unit]
      modifies out, out.bytes
      ensures Valid() && (out.bytes == old(out.bytes) || fresh(out.bytes))
      ensures [type_] + out.Written() == NodeBefore(Match(list, start, limit, unit), old(out.Written()))
      decreases limit - start, |list[start].key| - unit, 4
    {
      hide Tree, Encodes, Ascending, Pooled;
      ghost var a, c := list[start].key, list[limit - 1].key;
      assert Share(a, c, unit) && Share(a, c, unit + 1);
      var lastUnitIndex := GetLimitOfLinearMatch(start, limit - 1, unit);
      Between(list, start, limit, lastUnitIndex);
      var offset := WriteNode(start, limit, lastUnitIndex);
      ghost var s, next := a[unit..lastUnitIndex], Tree(list, start, limit, lastUnitIndex);
      type_ := WriteChunks(start, unit, lastUnitIndex, next, old(out.Written()));
    }

    /** Writes match bytes before a node, 16 at a time from their end. */
    method WriteChunks(i: nat, unit: nat, end: nat, ghost next: Node, ghost w: seq<Byte>) returns (type_: Byte)
      requires Valid() && i < |list| && unit < end <= |list[i].key| && out.Written() == NodeBefore(next, w)
      modifies out, out.bytes
      ensures Valid() && (out.bytes == old(out.bytes) || fresh(out.bytes))
      ensures [type_] + out.Written() == NodeBefore(Chunked(list[i].key[unit..end], next), w)
    {
      hide Encodes, Ascending, Pooled, Chunked, NodeBefore;
      ghost var key := list[i].key;
      var lastUnitIndex, length := end, end - unit;
      ghost var node := next;
      while length > MAX_LINEAR_MATCH_LENGTH
        invariant Valid() && (out.bytes == old(out.bytes) || fresh(out.bytes))
        invariant unit < lastUnitIndex == unit + length <= end
        invariant out.Written() == NodeBefore(node, w)
        invariant Chunked(key[unit..lastUnitIndex], node) == Chunked(key[unit..end], next)
      {
        ChunkedStep(key, unit, lastUnitIndex, node);
        lastUnitIndex := lastUnitIndex - MAX_LINEAR_MATCH_LENGTH;
        length := length - MAX_LINEAR_MATCH_LENGTH;
        node := WriteChunk(i, lastUnitIndex, node, w);
      }
      ChunkedStep(key, unit, lastUnitIndex, node);
      LinearBytes(key[unit..lastUnitIndex], node, w);
      WriteElementUnits(i, unit, length);
      type_ := MIN_LINEAR_MATCH + length - 1;
    }

    /** Writes a whole linear-match node of 16 bytes. */
    method WriteChunk(i: nat, unit: nat, ghost next: Node, ghost w: seq<Byte>) returns (ghost node: Node)
      requires Valid() && i < |list| && unit + MAX_LINEAR_MATCH_LENGTH <= |list[i].key|
      requires out.Written() == NodeBefore(next, w)
      modifies out, out.bytes
      ensures Valid() && (out.bytes == old(out.bytes) || fresh(out.bytes))
      ensures node == Linear(list[i].key[unit..unit + MAX_LINEAR_MATCH_LENGTH], next)
      ensures out.Written() == NodeBefore(node, w)
    {
      WriteElementUnits(i, unit, MAX_LINEAR_MATCH_LENGTH);
      var offset := out.Write(MIN_LINEAR_MATCH + MAX_LINEAR_MATCH_LENGTH - 1);
      node := Linear(list[i].key[unit..unit + MAX_LINEAR_MATCH_LENGTH], next);
    }

    /** Where strings go on with different bytes, there is a branch of at most 256 edges. */
    lemma Branches(start: nat, limit: nat, unit: nat)
      requires Range(list, start, limit, unit) && Longer(list, start, limit, unit)
      requires list[start].key[unit] != list[limit - 1].key[unit]
      ensures 2 <= Count(list, start, limit, unit) <= 0x100
      ensures Match(list, start, limit, unit) == Branch(Edges(list, start, limit, unit))
      ensures Edges(list, start, limit, unit).Size() == Count(list, start, limit, unit)
    {
      hide Tree, Edges, Ascending;
      ManyUnits(list, start, limit, unit);
      EdgesStore(list, start, limit, unit);
      SizeFits(Edges(list, start, limit, unit), list[start].key[unit], High(list, limit, unit));
    }

    /** Writes a branch, but for its lead byte. */
    method WriteBranch(start: nat, limit: nat, unit: nat) returns (type_: Byte)
      requires Valid() && Range(list, start, limit, unit) && Longer(list, start, limit, unit)
      requires list[start].key[unit] != list[limit - 1].key[unit]
      modifies out, out.bytes
      ensures Valid() && (out.bytes == old(out.bytes) || fresh(out.bytes))
      ensures [type_] + out.Written() == NodeBefore(Match(list, start, limit, unit), old(out.Written()))
      decreases limit - start, |list[start].key| - unit, 4
    {
      hide Match, Edges, Ascending, Pooled, SubBefore, Longer, Share, Count;
      Branches(start, limit, unit);
      var length := CountElementUnits(start, limit, unit);
      var offset := WriteBranchSubNode(start, limit, unit, length);
      length := length - 1;
      if length < MIN_LINEAR_MATCH {
        type_ := length;
      } else {
        offset := out.Write(length);
        type_ := 0;
      }
    }

    /** The strings from here on make `n` edges of a list. */
    ghost predicate EdgesFrom(start: nat, limit: nat, unit: nat, n: nat) {
      Range(list, start, limit, unit) && Longer(list, start, limit, unit) && Count(list, start, limit, unit) == n
    }

    /** The first edges of a list of `n`: where their strings start, and whether an edge ends its only string. */
    ghost predicate Grouped(starts: seq<nat>, isFinal: seq<bool>, limit: nat, unit: nat, n: nat) {
      |starts| == |isFinal| + 1 <= n &&
      (forall u :: 0 <= u < |starts| ==> starts[0] <= starts[u] && EdgesFrom(starts[u], limit, unit, n - u)) &&
      forall u :: 0 <= u < |isFinal| ==>
        starts[u + 1] == GroupEnd(list, starts[u], limit, unit) &&
        isFinal[u] == Ends(list, starts[u], starts[u + 1], unit)
    }

    /** One more edge of a list. */
    lemma MoreGroups(starts: seq<nat>, isFinal: seq<bool>, limit: nat, unit: nat, n: nat, i: nat)
      requires Grouped(starts, isFinal, limit, unit, n) && |starts| < n
      requires starts[|starts| - 1] < i && EdgesFrom(i, limit, unit, n - |starts|)
      requires i == GroupEnd(list, starts[|starts| - 1], limit, unit)
      ensures Grouped(starts + [i], isFinal + [Ends(list, starts[|starts| - 1], i, unit)], limit, unit, n)
    {
      hide Range, Longer, GroupEnd, Count;
      var more := starts + [i];
      forall u | 0 <= u < |more|
        ensures more[0] <= more[u] && EdgesFrom(more[u], limit, unit, n - u)
      {
        assert u < |starts| ==> more[u] == starts[u];
      }
    }

    lemma FromLast(starts: seq<nat>, isFinal: seq<bool>, limit: nat, unit: nat, n: nat)
      requires Grouped(starts, isFinal, limit, unit, n)
      ensures EdgesFrom(starts[|starts| - 1], limit, unit, n - |starts| + 1)
    {
    }

    lemma GroupAfter(first: nat, limit: nat, unit: nat, n: nat)
      requires EdgesFrom(first, limit, unit, n) && 1 < n
      ensures first < limit <= |list| && unit < |list[first].key| && Longer(list, first, limit, unit)
      ensures var i := GroupEnd(list, first, limit, unit);
              first < i < limit && EdgesFrom(i, limit, unit, n - 1)
    {
      hide Ascending, Share;
      var i := GroupEnd(list, first, limit, unit);
      assert Count(list, i, limit, unit) == n - 1;
      Subrange(list, first, limit, i, limit, unit);
    }

    method FindGroups(start: nat, limit: nat, unit: nat, length: nat) returns (starts: seq<nat>, isFinal: seq<bool>)
      requires Pooled(elements, strings, list) && 0 < length && EdgesFrom(start, limit, unit, length)
      ensures |starts| == |isFinal| + 1 == length && starts[0] == start
      ensures Grouped(starts, isFinal, limit, unit, length)
    {
      starts, isFinal := [start], [];
      assert Grouped(starts, isFinal, limit, unit, length);
      hide Pooled, Ascending, Range, Longer, Grouped, GroupEnd, EdgesFrom, Count;
      var first := start;
      while |starts| < length
        invariant |starts| == |isFinal| + 1 <= length && starts[0] == start && first == starts[|starts| - 1]
        invariant Grouped(starts, isFinal, limit, unit, length)
        decreases length - |starts|
      {
        FromLast(starts, isFinal, limit, unit, length);
        GroupAfter(first, limit, unit, length - |starts| + 1);
        var i := IndexOfElementWithNextUnit(first, unit, limit);
        MoreGroups(starts, isFinal, limit, unit, length, i);
        isFinal := isFinal + [first == i - 1 && unit + 1 == ElementStringLength(first)];
        first := i;
        starts := starts + [first];
      }
    }

    /** The edges of a list from the one whose strings start at `starts[u]`. */
    ghost function ListFrom(starts: seq<nat>, isFinal: seq<bool>, limit: nat, unit: nat, u: nat): Sub
      requires Grouped(starts, isFinal, limit, unit, |starts|) && u < |starts|
    {
      EdgeList(list, starts[u], limit, unit)
    }

    /** The edge of a list whose strings start at `starts[u]`. */
    lemma EdgeAt(starts: seq<nat>, isFinal: seq<bool>, limit: nat, unit: nat, u: nat)
      requires Grouped(starts, isFinal, limit, unit, |starts|) && u < |starts|
      ensures |starts| == |isFinal| + 1
      ensures starts[0] <= starts[u] < limit <= |list| && unit < |list[starts[u]].key|
      ensures u == |isFinal| ==>
                Range(list, starts[u], limit, unit + 1) &&
                ListFrom(starts, isFinal, limit, unit, u) ==
                LastEdge(list[starts[u]].key[unit], Tree(list, starts[u], limit, unit + 1))
      ensures u < |isFinal| ==>
                starts[u] < starts[u + 1] < limit && Range(list, starts[u], starts[u + 1], unit + 1) &&
                ListFrom(starts, isFinal, limit, unit, u) ==
                EdgeOf(starts[u], starts[u + 1], unit, isFinal[u], ListFrom(starts, isFinal, limit, unit, u + 1))
    {
      hide EdgeList, Tree, Ascending, Share;
      EdgeListStep(list, starts[u], limit, unit);
      if u == |isFinal| {
        assert GroupEnd(list, starts[u], limit, unit) == limit by {
          LastGroup(starts[u], limit, unit);
        }
      }
    }

    /** The edge for the strings of one group. */
    ghost function EdgeOf(start: nat, end: nat, unit: nat, isFinal: bool, rest: Sub): Sub
      requires start < end <= |list| && unit < |list[start].key| && Range(list, start, end, unit + 1)
    {
      if isFinal then FinalEdge(list[start].key[unit], list[start].value, rest)
      else JumpEdge(list[start].key[unit], Tree(list, start, end, unit + 1), rest)
    }

    lemma LastGroup(start: nat, limit: nat, unit: nat)
      requires EdgesFrom(start, limit, unit, 1)
      ensures GroupEnd(list, start, limit, unit) == limit
    {
    }

    /** Writes the nodes that the edges of a list jump to, the last one first. */
    method WriteTargets(starts: seq<nat>, isFinal: seq<bool>, limit: nat, unit: nat) returns (jumpTargets: seq<nat>)
      requires Valid() && Grouped(starts, isFinal, limit, unit, |starts|) && |starts| == |isFinal| + 1
      modifies out, out.bytes
      ensures Valid() && (out.bytes == old(out.bytes) || fresh(out.bytes)) && |jumpTargets| == |isFinal|
      ensures out.Written() == TargetsBefore(ListFrom(starts, isFinal, limit, unit, 0), old(out.Written()))
      ensures forall u :: 0 <= u < |isFinal| && !isFinal[u] ==>
                jumpTargets[u] == |TargetsBefore(ListFrom(starts, isFinal, limit, unit, u), old(out.Written()))|
      decreases limit - starts[0], |list[starts[0]].key| - unit, 1
    {
      hide ListFrom, Tree, Pooled, Ascending, Range, Encodes, Longer, NodeBefore, Grouped, Count;
      ghost var w := out.Written();
      jumpTargets := seq(|isFinal|, _ => 0);
      var unitNumber: nat := |isFinal|;
      EdgeAt(starts, isFinal, limit, unit, unitNumber);
      while 0 < unitNumber
        invariant unitNumber <= |isFinal| == |jumpTargets|
        invariant Valid() && (out.bytes == old(out.bytes) || fresh(out.bytes))
        invariant out.Written() == TargetsBefore(ListFrom(starts, isFinal, limit, unit, unitNumber), w)
        invariant forall u :: unitNumber <= u < |isFinal| && !isFinal[u] ==>
                    jumpTargets[u] == |TargetsBefore(ListFrom(starts, isFinal, limit, unit, u), w)|
      {
        unitNumber := unitNumber - 1;
        EdgeAt(starts, isFinal, limit, unit, unitNumber);
        if !isFinal[unitNumber] {
          var target := WriteNode(starts[unitNumber], starts[unitNumber + 1], unit + 1);
          jumpTargets := jumpTargets[unitNumber := target];
        }
      }
    }

    /** Writes an edge with its value or jump. */
    method WritePair(i: nat, unit: nat, value: int, isFinal: bool) returns (offset: nat)
      requires Valid() && i < |list| && unit < |list[i].key|
      modifies out, out.bytes
      ensures Valid() && (out.bytes == old(out.bytes) || fresh(out.bytes)) && offset == |out.Written()|
      ensures out.Written() == [list[i].key[unit]] + (ValueBytes(value, isFinal) + old(out.Written()))
    {
      hide Ascending, Pooled, ValueBytes, Encodes;
      offset := out.WriteValueAndFinal(value, isFinal);
      offset := out.Write(ElementUnit(i, unit));
    }

    lemma ListBytesAt(sub: Sub, w: seq<Byte>, top: seq<Byte>)
      ensures sub.FinalEdge? ==>
                ListBefore(sub, w, top) == [sub.key] + (ValueBytes(sub.value, true) + ListBefore(sub.rest, w, top))
      ensures sub.JumpEdge? ==>
                var list := ListBefore(sub.rest, w, top);
                ListBefore(sub, w, top) == [sub.key] + (ValueBytes(|list| - |TargetsBefore(sub, w)|, false) + list)
      ensures sub.LastEdge? ==> ListBefore(sub, w, top) == [sub.key] + NodeBefore(sub.next, top)
    {
      hide ValueBytes, NodeBefore, TargetsBefore;
    }

    /** Writes the pairs of a byte and a value of a list, before its last edge. */
    method WritePairs(starts: seq<nat>, isFinal: seq<bool>, limit: nat, unit: nat, jumpTargets: seq<nat>,
                      ghost w: seq<Byte>, ghost top: seq<Byte>)
      returns (offset: nat)
      requires Valid() && Grouped(starts, isFinal, limit, unit, |starts|) && |starts| == |isFinal| + 1
      requires |jumpTargets| == |isFinal|
      requires forall u :: 0 <= u < |isFinal| && !isFinal[u] ==>
                 jumpTargets[u] == |TargetsBefore(ListFrom(starts, isFinal, limit, unit, u), w)|
      requires out.Written() == ListBefore(ListFrom(starts, isFinal, limit, unit, |isFinal|), w, top)
      modifies out, out.bytes
      ensures Valid() && (out.bytes == old(out.bytes) || fresh(out.bytes)) && offset == |out.Written()|
      ensures out.Written() == ListBefore(ListFrom(starts, isFinal, limit, unit, 0), w, top)
    {
      hide Tree, Pooled, Ascending, NodeBefore, TargetsBefore, ListBefore, ValueBytes, Range, Longer, Grouped, ListFrom;
      var unitNumber: nat := |isFinal|;
      offset := out.bytesLength;
      while 0 < unitNumber
        invariant unitNumber <= |isFinal|
        invariant Valid() && (out.bytes == old(out.bytes) || fresh(out.bytes)) && offset == |out.Written()|
        invariant out.Written() == ListBefore(ListFrom(starts, isFinal, limit, unit, unitNumber), w, top)
      {
        unitNumber := unitNumber - 1;
        EdgeAt(starts, isFinal, limit, unit, unitNumber);
        ListBytesAt(ListFrom(starts, isFinal, limit, unit, unitNumber), w, top);
        var first := starts[unitNumber];
        var value := if isFinal[unitNumber] then ElementValue(first) else offset - jumpTargets[unitNumber];
        offset := WritePair(first, unit, value, isFinal[unitNumber]);
      }
    }

    lemma LaterStart(starts: seq<nat>, isFinal: seq<bool>, limit: nat, unit: nat)
      requires Grouped(starts, isFinal, limit, unit, |starts|) && 2 <= |starts|
      ensures starts[0] < starts[|isFinal|]
    {
      hide Range, Longer;
    }

    /** Writes the edges of a list: the nodes they jump to, the last node, and then the pairs of a byte and a value. */
    method WriteEdgeList(start: nat, limit: nat, unit: nat, length: nat) returns (offset: nat)
      requires Valid() && 2 <= length && EdgesFrom(start, limit, unit, length)
      modifies out, out.bytes
      ensures Valid() && (out.bytes == old(out.bytes) || fresh(out.bytes)) && offset == |out.Written()|
      ensures var list := EdgeList(list, start, limit, unit);
              out.Written() == ListBefore(list, old(out.Written()), TargetsBefore(list, old(out.Written())))
      decreases limit - start, |list[start].key| - unit, 2
    {
      hide EdgeList, Tree, Pooled, Ascending, ListBefore, TargetsBefore, NodeBefore, Range, Longer, Grouped;
      ghost var w := out.Written();
      var starts, isFinal := FindGroups(start, limit, unit, length);
      var jumpTargets := WriteTargets(starts, isFinal, limit, unit);
      ghost var top := out.Written();
      var last := starts[length - 1];
      LaterStart(starts, isFinal, limit, unit);
      EdgeAt(starts, isFinal, limit, unit, length - 1);
      ListBytesAt(ListFrom(starts, isFinal, limit, unit, length - 1), w, top);
      offset := WriteNode(last, limit, unit + 1);
      offset := out.Write(ElementUnit(last, unit));
      offset := WritePairs(starts, isFinal, limit, unit, jumpTargets, w, top);
    }

    /** Writes the comparison bytes and jumps of split branches, from the innermost one outwards. */
    method WriteSplits(middleUnits: seq<Byte>, lessThan: seq<nat>)
      requires Valid() && |middleUnits| == |lessThan|
      requires forall k :: 0 <= k < |lessThan| ==> lessThan[k] <= |out.Written()|
      modifies out, out.bytes
      ensures Valid() && (out.bytes == old(out.bytes) || fresh(out.bytes))
      ensures out.Written() == Wrapped(middleUnits, lessThan, old(out.Written()))
    {
      hide DeltaBytes, LandsAt, Ascending, Pooled;
      var ltLength := |lessThan|;
      assert middleUnits[..ltLength] == middleUnits && lessThan[..ltLength] == lessThan;
      while 0 < ltLength
        invariant Valid() && (out.bytes == old(out.bytes) || fresh(out.bytes)) && ltLength <= |lessThan|
        invariant forall k :: 0 <= k < ltLength ==> lessThan[k] <= |out.Written()|
        invariant Wrapped(middleUnits[..ltLength], lessThan[..ltLength], out.Written()) ==
                  Wrapped(middleUnits, lessThan, old(out.Written()))
      {
        ltLength := ltLength - 1;
        assert middleUnits[..ltLength + 1][..ltLength] == middleUnits[..ltLength];
        assert lessThan[..ltLength + 1][..ltLength] == lessThan[..ltLength];
        var offset := out.WriteDeltaTo(lessThan[ltLength]);
        offset := out.Write(middleUnits[ltLength]);
      }
    }

    /** A range of more edges than a list has is halved. */
    lemma Halved(start: nat, limit: nat, unit: nat, n: nat, i: nat)
      requires EdgesFrom(start, limit, unit, n) && MAX_BRANCH_LINEAR_SUB_NODE_LENGTH < n
      requires i == Skip(list, start, limit, unit, n / 2)
      ensures start < i < limit <= |list| && unit < |list[i].key| && unit < |list[start].key|
      ensures EdgesFrom(start, i, unit, n / 2) && EdgesFrom(i, limit, unit, n - n / 2)
      ensures Edges(list, start, limit, unit) ==
              Split(list[i].key[unit], Edges(list, start, i, unit), Edges(list, i, limit, unit))
    {
      hide Edges, Ascending, Share;
      EdgesStep(list, start, limit, unit, i);
    }

    lemma NotHalved(start: nat, limit: nat, unit: nat, n: nat)
      requires EdgesFrom(start, limit, unit, n) && n <= MAX_BRANCH_LINEAR_SUB_NODE_LENGTH
      ensures Edges(list, start, limit, unit) == EdgeList(list, start, limit, unit)
      ensures !EdgeList(list, start, limit, unit).Split?
    {
      hide Edges, Ascending, Share;
      EdgesStep(list, start, limit, unit, Skip(list, start, limit, unit, n / 2));
    }

    /** Writes the edges of a branch: less-than parts first, then a list, then the comparison bytes before it. */
    method WriteBranchSubNode(start: nat, limit: nat, unit: nat, count: nat) returns (offset: nat)
      requires Valid() && 2 <= count && EdgesFrom(start, limit, unit, count) && start < limit <= |list|
      modifies out, out.bytes
      ensures Valid() && (out.bytes == old(out.bytes) || fresh(out.bytes)) && offset == |out.Written()|
      ensures out.Written() == SubBefore(Edges(list, start, limit, unit), old(out.Written()))
      decreases limit - start, |list[start].key| - unit, 3
    {
      hide Edges, EdgeList, Encodes, Ascending, Pooled, Range, Longer, SubBefore, Wrapped, Tree, Count, Skip;
      var middleUnits: seq<Byte>, lessThan: seq<nat> := [], [];
      var first, length := start, count;
      ghost var all := SubBefore(Edges(list, start, limit, unit), out.Written());
      NothingWrapped(all);
      while length > MAX_BRANCH_LINEAR_SUB_NODE_LENGTH
        invariant Valid() && (out.bytes == old(out.bytes) || fresh(out.bytes))
        invariant start <= first < limit && 2 <= length && EdgesFrom(first, limit, unit, length)
        invariant |middleUnits| == |lessThan| && forall k :: 0 <= k < |lessThan| ==> lessThan[k] <= |out.Written()|
        invariant Wrapped(middleUnits, lessThan, SubBefore(Edges(list, first, limit, unit), out.Written())) == all
      {
        var i := SkipElementsBySomeUnits(first, unit, length / 2, limit);
        Halved(first, limit, unit, length, i);
        ghost var w, key := out.Written(), list[i].key[unit];
        WrappedSplit(middleUnits, lessThan, key, Edges(list, first, i, unit), Edges(list, i, limit, unit), w);
        middleUnits := middleUnits + [ElementUnit(i, unit)];
        var target := WriteBranchSubNode(first, i, unit, length / 2);
        lessThan := lessThan + [target];
        first := i;
        length := length - length / 2;
      }
      NotHalved(first, limit, unit, length);
      ListBytes(EdgeList(list, first, limit, unit), out.Written());
      offset := WriteEdgeList(first, limit, unit, length);
      WriteSplits(middleUnits, lessThan);
      offset := out.bytesLength;
    }

    lemma NothingWrapped(body: seq<Byte>)
      ensures Wrapped([], [], body) == body
    {
    }

    lemma ListBytes(sub: Sub, w: seq<Byte>)
      requires !sub.Split?
      ensures SubBefore(sub, w) == ListBefore(sub, w, TargetsBefore(sub, w)) && |w| < |SubBefore(sub, w)|
    {
    }
  }

  // ----- the whole build

  /** The entries that were added, where no addition failed. */
  ghost function AddedEntries(added: seq<Option<Entry>>): (r: seq<Entry>)
    requires forall i :: 0 <= i < |added| ==> added[i].Some?
    ensures |r| == |added| && forall i :: 0 <= i < |added| ==> added[i] == Some(r[i])
  {
    seq(|added|, i requires 0 <= i < |added| => added[i].value)
  }

  /** The written bytes encode a trie of 32-bit values that stores these entries and nothing else. */
  ghost predicate Built(written: seq<Byte>, node: Node, list: seq<Entry>) {
    node.WellFormed() && written == Serialize(node) && (|written| < 0x8000_0000 ==> Encodes(written, 0, node)) &&
    forall key, v :: node.LookUp(key) == Some(v) <==> Entry(key, v) in list
  }

  /** The strings for a trie, and the trie once it is built. */
  class Builder {
    const elements: Elements
    var out: BytesTrieBuilder?

    ghost var root: Node

    ghost predicate Valid()
      reads this, elements, elements.elements, out, if out == null then {} else {out.bytes}
    {
      elements.Valid() &&
      (out != null ==>
         out.Valid() && 0 < out.bytesLength && AllThere() && Built(out.Written(), root, AddedEntries(elements.added)))
    }

    /** No addition failed. */
    ghost predicate AllThere()
      reads elements
    {
      forall i :: 0 <= i < |elements.added| ==> elements.added[i].Some?
    }

    constructor ()
      ensures Valid() && fresh(elements) && fresh(elements.elements) && out == null && elements.added == []
    {
      elements := new Elements();
      out := null;
      root := Final(0);
    }

    /** Adds a string with its value, unless the trie is built already. */
    method Add(s: seq<Byte>, value: int, errorCode: ErrorCode) returns (r: ErrorCode)
      requires Valid()
      modifies elements, elements.elements
      ensures Valid() && (elements.elements == old(elements.elements) || fresh(elements.elements))
      ensures r == if errorCode.Failure() then errorCode else if out != null then NoWritePermissionError
                   else if |s| > MAX_STRING_LENGTH then IndexOutOfBoundsError else ZeroError
      ensures elements.added ==
              old(elements.added) +
              if errorCode.Failure() || out != null then [] else if r.Failure() then [None] else [Some(Entry(s, value))]
    {
      hide Built;
      ghost var before := elements.added;
      r := elements.Add(s, value, out != null && out.bytesLength > 0, errorCode);
      assert out != null ==> elements.added == before;
    }

    /**
     Builds the trie, unless it is built already. That fails exactly if there are no strings,
     or one of them was added twice; otherwise the bytes are those of a trie of all of them.
     */
    method BuildBytes(errorCode: ErrorCode) returns (r: ErrorCode)
      requires Valid() && AllThere() && Int32Values(AddedEntries(elements.added))
      modifies this, elements, elements.elements
      ensures Valid() && AllThere() && elements.elements == old(elements.elements)
      ensures multiset(AddedEntries(elements.added)) == old(multiset(AddedEntries(elements.added)))
      ensures r == if errorCode.Failure() then errorCode else if old(out) != null then ZeroError
                   else if old(elements.added) == [] then IndexOutOfBoundsError
                   else if old(Twice(AddedEntries(elements.added))) then IllegalArgumentError else ZeroError
      ensures if old(out) != null || r.Failure() then out == old(out) else out != null
    {
      hide Built, Twice, Int32Values, Ascending, Rising, Element.Stores;
      if errorCode.Failure() {
        return errorCode;
      }
      if out != null {
        return ZeroError;
      }
      var n := elements.elementsLength;
      if n == 0 {
        return IndexOutOfBoundsError;
      }
      ghost var list := AddedEntries(elements.added);
      var sorted, strings := elements.elements[..n], elements.strings;
      ghost var ordered;
      sorted, ordered := SortElements(sorted, strings, list);
      SameSize(list, ordered);
      TwiceInAnyOrder(list, ordered);
      elements.Reorder(sorted, ordered);
      assert AddedEntries(elements.added) == ordered;
      var duplicate := FindDuplicate(sorted, strings, ordered);
      if duplicate {
        return IllegalArgumentError;
      }
      Int32InAnyOrder(list, ordered);
      ghost var node;
      out, node := BuildSorted(sorted, strings, ordered);
      root := node;
      r := ZeroError;
    }

    /** Builds the trie of sorted elements. */
    static method BuildSorted(elements: seq<Element>, strings: seq<Byte>, ghost list: seq<Entry>)
      returns (out: BytesTrieBuilder, ghost node: Node)
      requires Pooled(elements, strings, list) && list != [] && Ascending(list) && Int32Values(list)
      ensures fresh(out) && fresh(out.bytes) && out.Valid() && 0 < out.bytesLength && Built(out.Written(), node, list)
    {
      hide Ascending, Int32Values, Element.Stores, Tree;
      out := new BytesTrieBuilder(if |strings| < 1024 then 1024 else |strings|);
      var writer := new StringTrieBuilder(elements, strings, out, list);
      WholeRange(list);
      var offset := writer.WriteNode(0, |elements|, 0);
      node := Tree(list, 0, |list|, 0);
      TreeOfList(list, node);
    }

    /** Forgets the strings and the trie. */
    method Clear()
      requires Valid()
      modifies this, elements
      ensures Valid() && out == null && elements.added == []
    {
      elements.Clear();
      out := null;
    }
  }

  /**
   Feeding a string to a built trie finds the value it was added with; it reports no match
   where no string goes on.
   */
  lemma BuiltIsFound(written: seq<Byte>, node: Node, list: seq<Entry>, s: seq<Byte>)
    requires Built(written, node, list)
    ensures forall v :: Walk(At(node), s, |s|).LookUp([]) == Some(v) <==> Entry(s, v) in list
    ensures Report(Walk(At(node), s, |s|)) == NoMatch <==> forall i :: 0 <= i < |list| ==> !(s <= list[i].key)
  {
    hide Node.WellFormed, Node.LookUp, Report, Walk;
    WalkIsLookUp(At(node), s, |s|, []);
    assert s[..|s|] + [] == s;
    NoMatchIs(node, s);
    GoingOn(written, node, list, s);
  }

  lemma NoMatchIs(root: Node, s: seq<Byte>)
    requires root.WellFormed()
    ensures Report(Walk(At(root), s, |s|)) == NoMatch <==> !exists more :: root.LookUp(s + more).Some?
  {
    hide Node.WellFormed, Node.LookUp, Report, Walk;
    WalkReports(root, s);
  }

  lemma GoingOn(written: seq<Byte>, node: Node, list: seq<Entry>, s: seq<Byte>)
    requires Built(written, node, list)
    ensures (exists more :: node.LookUp(s + more).Some?) <==> exists i :: 0 <= i < |list| && s <= list[i].key
  {
    hide Node.WellFormed, Node.LookUp, Encodes, NodeBefore;
    if more :| node.LookUp(s + more).Some? {
      var e := Entry(s + more, node.LookUp(s + more).value);
      assert e in list && s <= e.key;
    }
    if i :| 0 <= i < |list| && s <= list[i].key {
      var more := list[i].key[|s|..];
      assert s + more == list[i].key && Entry(list[i].key, list[i].value) in list;
    }
  }

  lemma SameSize(a: seq<Entry>, b: seq<Entry>)
    requires multiset(a) == multiset(b)
    ensures |a| == |b|
  {
    assert |multiset(a)| == |a|;
  }

  lemma Int32InAnyOrder(a: seq<Entry>, b: seq<Entry>)
    requires multiset(a) == multiset(b) && Int32Values(a)
    ensures Int32Values(b)
  {
    forall i | 0 <= i < |b|
      ensures IsInt32(b[i].value)
    {
      assert b[i] in multiset(a);
    }
  }
}
