/** The strings that a trie is built from, `icu/common/bytestriebuilder.cpp`. */
module TrieElements {
  import opened Common
  import opened ErrorCodes
  import opened TrieNodes
  import opened TrieEntries

  const MAX_STRING_LENGTH := 0xffff

  /**
   A string in a pool, with its value. Before the string there is its length: in one byte at
   offset `stringOffset`, or if that is negative, in two bytes at offset -`stringOffset` - 1.
   */
  datatype Element = Element(stringOffset: int, value: int) {

    /** The element is string `s` in the pool. */
    ghost predicate Stores(strings: seq<Byte>, s: seq<Byte>) {
      if stringOffset >= 0 then
        stringOffset + 1 + |s| <= |strings| && strings[stringOffset] == |s| &&
        strings[stringOffset + 1..stringOffset + 1 + |s|] == s
      else
        var offset := -stringOffset - 1;
        offset + 2 + |s| <= |strings| && strings[offset] as int * 0x100 + strings[offset + 1] == |s| &&
        strings[offset + 2..offset + 2 + |s|] == s
    }

    function GetString(strings: seq<Byte>, ghost s: seq<Byte>): (r: seq<Byte>)
      requires Stores(strings, s)
      ensures r == s
    {
      if stringOffset >= 0 then
        var length := strings[stringOffset] as int;
        strings[stringOffset + 1..stringOffset + 1 + length]
      else
        var offset := -stringOffset - 1;
        var length := strings[offset] as int * 0x100 + strings[offset + 1];
        strings[offset + 2..offset + 2 + length]
    }

    function GetStringLength(strings: seq<Byte>, ghost s: seq<Byte>): (r: nat)
      requires Stores(strings, s)
      ensures r == |s|
    {
      if stringOffset >= 0 then strings[stringOffset]
      else
        var offset := -stringOffset - 1;
        strings[offset] as int * 0x100 + strings[offset + 1]
    }

    function CharAt(index: nat, strings: seq<Byte>, ghost s: seq<Byte>): (r: Byte)
      requires Stores(strings, s) && index < |s|
      ensures r == s[index]
    {
      var data := if stringOffset >= 0 then stringOffset + 1 else -stringOffset - 1 + 2;
      assert strings[data..data + |s|][index] == s[index];
      strings[data + index]
    }
  }

  /** A string stays in the pool when others are added. */
  lemma StoresMore(e: Element, strings: seq<Byte>, more: seq<Byte>, s: seq<Byte>)
    requires e.Stores(strings, s)
    ensures e.Stores(strings + more, s)
  {
    var data := if e.stringOffset >= 0 then e.stringOffset + 1 else -e.stringOffset + 1;
    assert (strings + more)[data..data + |s|] == strings[data..data + |s|];
  }

  /** The difference of the first two bytes that differ among the first `n`, from `k` on. */
  function CompareBytes(a: seq<Byte>, b: seq<Byte>, k: nat, n: nat): int
    requires k <= n <= |a| && n <= |b|
    decreases n - k
  {
    if k == n then 0 else if a[k] != b[k] then a[k] as int - b[k] else CompareBytes(a, b, k + 1, n)
  }

  /** Compares two strings: by their bytes, then by their lengths. */
  function CompareStrings(a: seq<Byte>, b: seq<Byte>): int {
    var lengthDiff := |a| - |b|;
    var commonLength := if lengthDiff <= 0 then |a| else |b|;
    var diff := CompareBytes(a, b, 0, commonLength);
    if diff != 0 then diff else lengthDiff
  }

  lemma {:induction false} CompareBytesFinds(a: seq<Byte>, b: seq<Byte>, k: nat, n: nat) returns (d: nat)
    requires k <= n <= |a| && n <= |b| && forall i :: 0 <= i < k ==> a[i] == b[i]
    ensures d <= n && forall i :: 0 <= i < d ==> a[i] == b[i]
    ensures if d == n then CompareBytes(a, b, k, n) == 0
            else a[d] != b[d] && CompareBytes(a, b, k, n) == a[d] as int - b[d]
    decreases n - k
  {
    if k == n || a[k] != b[k] {
      d := k;
    } else {
      d := CompareBytesFinds(a, b, k + 1, n);
    }
  }

  /** The comparison is the byte order of strings, in which a trie is iterated. */
  lemma CompareIsOrder(a: seq<Byte>, b: seq<Byte>)
    ensures CompareStrings(a, b) < 0 <==> Below(a, b)
    ensures CompareStrings(a, b) == 0 <==> a == b
    ensures CompareStrings(a, b) > 0 <==> Below(b, a)
  {
    var n := if |a| <= |b| then |a| else |b|;
    var d := CompareBytesFinds(a, b, 0, n);
    DifferOnce(a, b, d);
    DifferOnce(b, a, d);
    if CompareStrings(a, b) < 0 {
      assert Differ(a, b, d);
    } else if CompareStrings(a, b) > 0 {
      assert Differ(b, a, d);
    } else {
      assert a == b;
    }
  }

  /** Two strings have only one first difference. */
  lemma DifferOnce(a: seq<Byte>, b: seq<Byte>, d: nat)
    requires d <= |a| && d <= |b| && (forall i :: 0 <= i < d ==> a[i] == b[i]) && (d == |a| || d == |b| || a[d] != b[d])
    ensures Below(a, b) <==> Differ(a, b, d)
  {
    forall k | Differ(a, b, k)
      ensures k == d
    {
    }
  }

  /** Where a builder keeps what was added. */
  class Elements {
    var strings: seq<Byte>
    var elements: array<Element>
    var elementsLength: nat

    // What was added; none where a string was too long, which leaves an element that is not set.
    ghost var added: seq<Option<Entry>>

    ghost predicate Valid()
      reads this, elements
    {
      elementsLength == |added| <= elements.Length &&
      forall i :: 0 <= i < |added| && added[i].Some? ==>
        elements[i].Stores(strings, added[i].value.key) && elements[i].value == added[i].value.value
    }

    constructor ()
      ensures Valid() && fresh(elements) && added == []
    {
      strings := [];
      elements := new Element[0];
      elementsLength := 0;
      added := [];
    }

    /** Adds a string, unless the trie is built already, and keeps all earlier ones. */
    method Add(s: seq<Byte>, value: int, built: bool, errorCode: ErrorCode) returns (r: ErrorCode)
      requires Valid()
      modifies this, elements
      ensures Valid() && (elements == old(elements) || fresh(elements))
      ensures r == if errorCode.Failure() then errorCode else if built then NoWritePermissionError
                   else if |s| > MAX_STRING_LENGTH then IndexOutOfBoundsError else ZeroError
      ensures added ==
              old(added) +
              if errorCode.Failure() || built then [] else if r.Failure() then [None] else [Some(Entry(s, value))]
    {
      if errorCode.Failure() {
        return errorCode;
      }
      if built {
        return NoWritePermissionError;
      }
      if elementsLength == elements.Length {
        Grow();
      }
      var element := elements[elementsLength];
      elementsLength := elementsLength + 1;
      element, r := SetTo(element, s, value);
      elements[elementsLength - 1] := element;
      added := added + [if r.Failure() then None else Some(Entry(s, value))];
    }

    method Grow()
      requires Valid() && elementsLength == elements.Length
      modifies this
      ensures Valid() && fresh(elements) && elementsLength < elements.Length
      ensures strings == old(strings) && elementsLength == old(elementsLength) && added == old(added)
    {
      var newCapacity := if elements.Length == 0 then 1024 else 4 * elements.Length;
      var newElements := new Element[newCapacity];
      forall k | 0 <= k < elementsLength {
        newElements[k] := elements[k];
      }
      elements := newElements;
    }

    /** Puts a string into the pool, unless its length does not fit into two bytes. */
    method SetTo(e: Element, s: seq<Byte>, value: int) returns (element: Element, r: ErrorCode)
      modifies `strings
      ensures r == if |s| > MAX_STRING_LENGTH then IndexOutOfBoundsError else ZeroError
      ensures r.Failure() ==> element == e && strings == old(strings)
      ensures !r.Failure() ==> element.Stores(strings, s) && element.value == value
      ensures forall e: Element, t :: e.Stores(old(strings), t) ==> e.Stores(strings, t)
    {
      var length := |s|;
      if length > MAX_STRING_LENGTH {
        return e, IndexOutOfBoundsError;
      }
      var offset := |strings|;
      var prefix: seq<Byte>;
      if length > 0xff {
        offset := -offset - 1;
        prefix := [length / 0x100, length % 0x100];
      } else {
        prefix := [length];
      }
      ghost var before := strings;
      strings := strings + prefix;
      element, r := Element(offset, value), ZeroError;
      strings := strings + s;
      assert strings == before + (prefix + s);
      forall e: Element, t | e.Stores(before, t)
        ensures e.Stores(strings, t)
      {
        StoresMore(e, before, prefix + s, t);
      }
    }

    /** Forgets all elements. */
    method Clear()
      requires Valid()
      modifies this
      ensures Valid() && elements == old(elements) && added == []
    {
      strings := [];
      elementsLength := 0;
      added := [];
    }

    /** Puts the elements into another order. */
    method Reorder(order: seq<Element>, ghost list: seq<Entry>)
      requires Valid() && Pooled(order, strings, list) && |list| == elementsLength
      modifies elements, `added
      ensures Valid() && added == AllAdded(list)
    {
      forall k | 0 <= k < elementsLength {
        elements[k] := order[k];
      }
      added := AllAdded(list);
    }
  }

  /** The entries, as they are added. */
  ghost function AllAdded(list: seq<Entry>): (r: seq<Option<Entry>>)
    ensures |r| == |list| && forall i :: 0 <= i < |list| ==> r[i] == Some(list[i])
  {
    seq(|list|, i requires 0 <= i < |list| => Some(list[i]))
  }

  /** The elements are the entries of a list, with their strings in the pool. */
  ghost predicate Pooled(elements: seq<Element>, strings: seq<Byte>, list: seq<Entry>) {
    |elements| == |list| &&
    forall i :: 0 <= i < |list| ==> elements[i].Stores(strings, list[i].key) && elements[i].value == list[i].value
  }

  /** Compares the strings of two elements. */
  method CompareElements(a: Element, b: Element, strings: seq<Byte>, ghost s: seq<Byte>, ghost t: seq<Byte>)
    returns (r: int)
    requires a.Stores(strings, s) && b.Stores(strings, t)
    ensures r < 0 <==> Below(s, t)
    ensures r == 0 <==> s == t
    ensures r > 0 <==> Below(t, s)
  {
    var thisString, otherString := a.GetString(strings, s), b.GetString(strings, t);
    r := CompareStrings(thisString, otherString);
    CompareIsOrder(s, t);
  }

  // ----- sorting

  /** Ascending, but strings may be there more than once. */
  ghost predicate Rising(list: seq<Entry>) {
    forall i, j :: 0 <= i < j < |list| ==> !Below(list[j].key, list[i].key)
  }

  lemma Trichotomy(a: seq<Byte>, b: seq<Byte>)
    ensures Below(a, b) || a == b || Below(b, a)
    ensures !(Below(a, b) && Below(b, a)) && (a == b ==> !Below(a, b))
  {
    hide Below;
    CompareIsOrder(a, b);
  }

  lemma BelowTransitive(a: seq<Byte>, b: seq<Byte>, c: seq<Byte>)
    requires Below(a, b) && Below(b, c)
    ensures Below(a, c)
  {
    var i :| Differ(a, b, i);
    var j :| Differ(b, c, j);
    assert Differ(a, c, if i <= j then i else j);
  }

  /** What is not above the element before its place, and below the one at its place, can go there. */
  lemma InsertedRises(list: seq<Entry>, at: nat, e: Entry)
    requires Rising(list) && at <= |list|
    requires 0 < at ==> !Below(e.key, list[at - 1].key)
    requires forall k :: at <= k < |list| ==> Below(e.key, list[k].key)
    ensures Rising(list[..at] + [e] + list[at..])
  {
    hide Below;
    var r := list[..at] + [e] + list[at..];
    forall i, j | 0 <= i < j < |r|
      ensures !Below(r[j].key, r[i].key)
    {
      if i < at && j == at {
        NotAbove(list[i].key, list[at - 1].key, e.key, i == at - 1);
      } else if i == at {
        Trichotomy(e.key, list[j - 1].key);
      }
    }
  }

  lemma NotAbove(a: seq<Byte>, b: seq<Byte>, c: seq<Byte>, same: bool)
    requires (if same then a == b else !Below(b, a)) && !Below(c, b)
    ensures !Below(c, a)
  {
    hide Below;
    Trichotomy(a, b);
    Trichotomy(b, c);
    if Below(c, a) {
      Trichotomy(a, c);
      if Below(a, b) && Below(b, c) {
        BelowTransitive(a, b, c);
      }
    }
  }

  method InsertElement(sorted: seq<Element>, e: Element, strings: seq<Byte>, ghost list: seq<Entry>, ghost entry: Entry)
    returns (r: seq<Element>, ghost rl: seq<Entry>)
    requires Pooled(sorted, strings, list) && Rising(list) && e.Stores(strings, entry.key) && e.value == entry.value
    ensures Pooled(r, strings, rl) && Rising(rl) && multiset(rl) == multiset(list) + multiset{entry}
  {
    hide Rising, Below, Element.Stores;
    var at: nat := |sorted|;
    while 0 < at
      invariant at <= |sorted| && forall k :: at <= k < |sorted| ==> Below(entry.key, list[k].key)
    {
      var diff := CompareElements(sorted[at - 1], e, strings, list[at - 1].key, entry.key);
      if diff <= 0 {
        Trichotomy(list[at - 1].key, entry.key);
        break;
      }
      at := at - 1;
    }
    r := sorted[..at] + [e] + sorted[at..];
    rl := list[..at] + [entry] + list[at..];
    InsertedRises(list, at, entry);
    Inserted(list, at, entry);
    InsertedPooled(sorted, e, strings, list, entry, at);
  }

  lemma Inserted(list: seq<Entry>, at: nat, entry: Entry)
    requires at <= |list|
    ensures multiset(list[..at] + [entry] + list[at..]) == multiset(list) + multiset{entry}
  {
    assert list == list[..at] + list[at..];
  }

  lemma InsertedPooled(sorted: seq<Element>, e: Element, strings: seq<Byte>, list: seq<Entry>, entry: Entry, at: nat)
    requires Pooled(sorted, strings, list) && at <= |list| && e.Stores(strings, entry.key) && e.value == entry.value
    ensures Pooled(sorted[..at] + [e] + sorted[at..], strings, list[..at] + [entry] + list[at..])
  {
    hide Element.Stores;
  }

  lemma NothingRises()
    ensures Rising([])
  {
  }

  /** Sorts elements by their strings; in which order those with the same string come is not said. */
  method SortElements(elements: seq<Element>, strings: seq<Byte>, ghost list: seq<Entry>)
    returns (r: seq<Element>, ghost rl: seq<Entry>)
    requires Pooled(elements, strings, list)
    ensures Pooled(r, strings, rl) && Rising(rl) && multiset(rl) == multiset(list)
  {
    hide Below, Rising, Element.Stores;
    r, rl := [], [];
    assert Rising(rl) by { NothingRises(); }
    for i := 0 to |elements|
      invariant Pooled(r, strings, rl) && Rising(rl) && multiset(rl) == multiset(list[..i])
    {
      r, rl := InsertElement(r, elements[i], strings, rl, list[i]);
      assert list[..i + 1] == list[..i] + [list[i]];
    }
    assert list[..|list|] == list;
  }

  /** Two entries have the same string. */
  ghost predicate Twice(list: seq<Entry>) {
    exists i, j :: 0 <= i < j < |list| && list[i].key == list[j].key
  }

  /** In a sorted list, entries with the same string are neighbors. */
  lemma Neighbors(list: seq<Entry>, i: nat, j: nat, k: nat)
    requires Rising(list) && i < j < |list| && list[i].key == list[j].key && k == i + 1
    ensures list[k - 1].key == list[k].key
  {
    hide Below;
    assert k < j ==> !Below(list[j].key, list[k].key);
    Trichotomy(list[i].key, list[k].key);
  }

  lemma NeighborsDiffer(list: seq<Entry>)
    requires Rising(list) && forall i :: 0 < i < |list| ==> list[i - 1].key != list[i].key
    ensures Ascending(list) && !Twice(list)
  {
    hide Below;
    forall i, j | 0 <= i < j < |list|
      ensures list[i].key != list[j].key && Below(list[i].key, list[j].key)
    {
      if list[i].key == list[j].key {
        Neighbors(list, i, j, i + 1);
        assert false;
      }
      Trichotomy(list[i].key, list[j].key);
    }
  }

  /** Looks for a string that is there twice, among sorted ones. */
  method FindDuplicate(elements: seq<Element>, strings: seq<Byte>, ghost list: seq<Entry>) returns (found: bool)
    requires Pooled(elements, strings, list) && Rising(list) && elements != []
    ensures found == Twice(list)
    ensures !found ==> Ascending(list)
  {
    hide Below, Ascending, Rising;
    var prev := elements[0].GetString(strings, list[0].key);
    for i := 1 to |elements|
      invariant prev == list[i - 1].key && forall k :: 0 < k < i ==> list[k - 1].key != list[k].key
    {
      var current := elements[i].GetString(strings, list[i].key);
      if prev == current {
        assert list[i - 1].key == list[i].key;
        return true;
      }
      prev := current;
    }
    NeighborsDiffer(list);
    found := false;
  }

  /** Whether a string is there twice does not depend on the order. */
  lemma TwiceInAnyOrder(a: seq<Entry>, b: seq<Entry>)
    requires multiset(a) == multiset(b)
    ensures Twice(a) == Twice(b)
  {
    if Twice(a) {
      StillTwice(a, b);
    }
    if Twice(b) {
      StillTwice(b, a);
    }
  }

  lemma StillTwice(a: seq<Entry>, b: seq<Entry>)
    requires multiset(a) == multiset(b) && Twice(a)
    ensures Twice(b)
  {
    var i, j :| 0 <= i < j < |a| && a[i].key == a[j].key;
    if a[i] == a[j] {
      CountedTwice(a, i, j);
      var k, l := PlacedTwice(b, a[i]);
    } else {
      var k, l := Placed(b, a[i]), Placed(b, a[j]);
      assert if k < l then b[k].key == b[l].key else b[l].key == b[k].key;
    }
  }

  ghost function Placed(list: seq<Entry>, e: Entry): (k: nat)
    requires e in multiset(list)
    ensures k < |list| && list[k] == e
  {
    var k :| 0 <= k < |list| && list[k] == e;
    k
  }

  lemma CountedTwice(list: seq<Entry>, i: nat, j: nat)
    requires i < j < |list| && list[i] == list[j]
    ensures 2 <= multiset(list)[list[i]]
  {
    assert list == list[..j] + list[j..];
    assert list[..j][i] in multiset(list[..j]) && list[j..][0] in multiset(list[j..]);
  }

  lemma {:induction false} PlacedTwice(list: seq<Entry>, e: Entry) returns (k: nat, l: nat)
    requires 2 <= multiset(list)[e]
    ensures k < l < |list| && list[k] == list[l] == e
  {
    l := |list| - 1;
    assert list == list[..l] + [list[l]];
    if list[l] == e {
      k := Placed(list[..l], e);
    } else {
      k, l := PlacedTwice(list[..l], e);
    }
  }
}
