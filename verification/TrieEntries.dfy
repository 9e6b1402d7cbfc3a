/**
 The contents of a trie as a list: what iterating over it must deliver. A positive `max`
 limits the length of the strings; longer ones are cut off, with no real value.
 */
module TrieEntries {
  import opened Common
  import opened TrieNodes

  datatype Entry = Entry(key: seq<Byte>, value: int)

  const NO_REAL_VALUE := -1

  /** The entries of a node that is reached by string `s`. */
  ghost function NodeEntries(node: Node, s: seq<Byte>, max: int): (r: seq<Entry>)
    ensures r != []
  {
    match node
    case Final(value) => [Entry(s, value)]
    case Value(value, next) =>
      [Entry(s, value)] + if 0 < max <= |s| then [] else NodeEntries(next, s, max)
    case Linear(bytes, next) =>
      if 0 < max < |s| + |bytes| then [Entry(if |s| <= max then s + bytes[..max - |s|] else s, NO_REAL_VALUE)]
      else NodeEntries(next, s + bytes, max)
    case Branch(sub) => if 0 < max <= |s| then [Entry(s, NO_REAL_VALUE)] else SubEntries(sub, s, max)
  }

  ghost function SubEntries(sub: Sub, s: seq<Byte>, max: int): (r: seq<Entry>)
    ensures r != []
  {
    match sub
    case Split(_, less, ge) => SubEntries(less, s, max) + SubEntries(ge, s, max)
    case FinalEdge(key, value, rest) => [Entry(s + [key], value)] + SubEntries(rest, s, max)
    case JumpEdge(key, target, rest) => NodeEntries(target, s + [key], max) + SubEntries(rest, s, max)
    case LastEdge(key, next) => NodeEntries(next, s + [key], max)
  }

  /** The entries of a trie from a state on. */
  ghost function StateEntries(st: State, max: int): seq<Entry> {
    match st
    case Stopped => []
    case InLinear(bytes, next) => NodeEntries(Linear(bytes, next), [], max)
    case At(node) => NodeEntries(node, [], max)
  }

  // ----- what is in the list

  /** Some string of the trie begins with `t`. */
  ghost predicate Continues(node: Node, t: seq<Byte>) {
    match node
    case Final(_) => t == []
    case Value(_, next) => Continues(next, t)
    case Linear(bytes, next) => t <= bytes || (bytes <= t && Continues(next, t[|bytes|..]))
    case Branch(sub) => t == [] || SubContinues(sub, t[0], t[1..])
  }

  ghost predicate SubContinues(sub: Sub, b: Byte, t: seq<Byte>) {
    match sub
    case Split(_, less, ge) => if less.HasKey(b) then SubContinues(less, b, t) else SubContinues(ge, b, t)
    case FinalEdge(key, _, rest) => if b != key then SubContinues(rest, b, t) else t == []
    case JumpEdge(key, target, rest) => if b != key then SubContinues(rest, b, t) else Continues(target, t)
    case LastEdge(key, next) => b == key && Continues(next, t)
  }

  /** If a string continues in the trie, then to a key. */
  lemma {:induction false} ContinuesToKey(node: Node, t: seq<Byte>) returns (more: seq<Byte>)
    requires node.WellFormed() && Continues(node, t)
    ensures node.LookUp(t + more).Some? && (!node.IsValue() ==> t + more != [])
    decreases node
  {
    match node
    case Final(_) => more := [];
    case Value(_, next) => more := ContinuesToKey(next, t);
    case Linear(bytes, next) =>
      if t <= bytes {
        var key := SomeKey(node);
        more := key[|t|..];
        assert t == key[..|t|];
        assert t + more == key;
      } else {
        more := ContinuesToKey(next, t[|bytes|..]);
        assert (t + more)[|bytes|..] == t[|bytes|..] + more;
      }
    case Branch(sub) =>
      if t == [] {
        more := SomeKey(node);
        assert t + more == more;
      } else {
        more := SubContinuesToKey(sub, 0, 0x100, t[0], t[1..]);
        assert (t + more)[1..] == t[1..] + more;
      }
  }

  lemma {:induction false} SubContinuesToKey(sub: Sub, lo: int, hi: int, b: Byte, t: seq<Byte>)
    returns (more: seq<Byte>)
    requires sub.Ordered(lo, hi) && SubContinues(sub, b, t)
    ensures sub.LookUp(b, t + more).Some?
    decreases sub
  {
    match sub
    case Split(key, less, ge) =>
      if less.HasKey(b) {
        more := SubContinuesToKey(less, lo, key, b, t);
      } else {
        more := SubContinuesToKey(ge, key, hi, b, t);
      }
    case FinalEdge(key, _, rest) =>
      if b != key {
        more := SubContinuesToKey(rest, key + 1, hi, b, t);
      } else {
        more := [];
      }
    case JumpEdge(key, target, rest) =>
      if b != key {
        more := SubContinuesToKey(rest, key + 1, hi, b, t);
      } else {
        more := ContinuesToKey(target, t);
      }
    case LastEdge(key, next) => more := ContinuesToKey(next, t);
  }

  lemma {:induction false} KeyContinues(node: Node, t: seq<Byte>, more: seq<Byte>)
    requires node.LookUp(t + more).Some?
    ensures Continues(node, t)
    decreases node
  {
    match node
    case Final(_) =>
    case Value(_, next) =>
      if t + more != [] {
        KeyContinues(next, t, more);
      } else {
        EmptyContinues(next);
      }
    case Linear(bytes, next) =>
      if |t| <= |bytes| {
        assert t == (t + more)[..|t|] == bytes[..|t|];
      } else {
        assert bytes == (t + more)[..|bytes|] == t[..|bytes|];
        assert (t + more)[|bytes|..] == t[|bytes|..] + more;
        KeyContinues(next, t[|bytes|..], more);
      }
    case Branch(sub) =>
      if t != [] {
        assert (t + more)[1..] == t[1..] + more;
        SubKeyContinues(sub, t[0], t[1..], more);
      }
  }

  lemma {:induction false} EmptyContinues(node: Node)
    ensures Continues(node, [])
  {
    if node.Value? {
      EmptyContinues(node.next);
    }
  }

  lemma {:induction false} SubKeyContinues(sub: Sub, b: Byte, t: seq<Byte>, more: seq<Byte>)
    requires sub.LookUp(b, t + more).Some?
    ensures SubContinues(sub, b, t)
    decreases sub
  {
    match sub
    case Split(_, less, ge) =>
      if less.HasKey(b) {
        SubKeyContinues(less, b, t, more);
      } else {
        SubKeyContinues(ge, b, t, more);
      }
    case FinalEdge(key, _, rest) =>
      if b != key {
        SubKeyContinues(rest, b, t, more);
      }
    case JumpEdge(key, target, rest) =>
      if b != key {
        SubKeyContinues(rest, b, t, more);
      } else {
        KeyContinues(target, t, more);
      }
    case LastEdge(key, next) => KeyContinues(next, t, more);
  }

  /**
   A value that is due for string `t` below a node at depth `len`: the string's own, or none
   where a longer string is cut off.
   */
  ghost predicate Due(own: Option<int>, continues: bool, len: nat, max: int, value: int) {
    (max <= 0 || len <= max) &&
    (own == Some(value) || (own == None && continues && 0 < max == len && value == NO_REAL_VALUE))
  }

  /** All entries begin with the string that leads to the node. */
  lemma {:induction false} EntriesExtend(node: Node, s: seq<Byte>, max: int, i: nat)
    requires i < |NodeEntries(node, s, max)|
    ensures s <= NodeEntries(node, s, max)[i].key
    decreases node
  {
    match node
    case Final(_) =>
    case Value(_, next) =>
      if i > 0 {
        EntriesExtend(next, s, max, i - 1);
      }
    case Linear(bytes, next) =>
      if !(0 < max < |s| + |bytes|) {
        EntriesExtend(next, s + bytes, max, i);
      }
    case Branch(sub) =>
      if !(0 < max <= |s|) {
        SubEntriesExtend(sub, s, max, i);
      }
  }

  lemma {:induction false} SubEntriesExtend(sub: Sub, s: seq<Byte>, max: int, i: nat)
    requires i < |SubEntries(sub, s, max)|
    ensures var key := SubEntries(sub, s, max)[i].key; s < key && sub.HasKey(key[|s|])
    decreases sub
  {
    match sub
    case Split(_, less, ge) =>
      var n := |SubEntries(less, s, max)|;
      if i < n {
        SubEntriesExtend(less, s, max, i);
      } else {
        SubEntriesExtend(ge, s, max, i - n);
      }
    case FinalEdge(_, _, rest) =>
      if i > 0 {
        SubEntriesExtend(rest, s, max, i - 1);
      }
    case JumpEdge(key, target, rest) =>
      var n := |NodeEntries(target, s + [key], max)|;
      if i < n {
        EntriesExtend(target, s + [key], max, i);
      } else {
        SubEntriesExtend(rest, s, max, i - n);
      }
    case LastEdge(key, next) => EntriesExtend(next, s + [key], max, i);
  }

  /**
   The list contains exactly the strings that are due, each with its value: without a limit
   the keys of the trie; with a limit the keys up to that length, and the proper prefixes of
   that length of longer keys.
   */
  lemma {:induction false} EntriesAreDue(node: Node, s: seq<Byte>, max: int, t: seq<Byte>, value: int)
    requires node.WellFormed() && (max <= 0 || |s| <= max)
    ensures Entry(s + t, value) in NodeEntries(node, s, max) <==>
            Due(node.LookUp(t), Continues(node, t), |s| + |t|, max, value)
    decreases node, 1
  {
    var e := Entry(s + t, value);
    match node
    case Final(_) =>
      assert s + t == s <==> t == [];
    case Value(v, next) =>
      assert s + t == s <==> t == [];
      if 0 < max <= |s| {
      } else {
        assert e in NodeEntries(node, s, max) <==> e == Entry(s, v) || e in NodeEntries(next, s, max);
        EntriesAreDue(next, s, max, t, value);
        assert t == [] ==> next.LookUp(t) == None;
      }
    case Linear(bytes, next) => LinearEntriesAreDue(bytes, next, s, max, t, value);
    case Branch(sub) =>
      assert s + t == s <==> t == [];
      if 0 < max <= |s| {
      } else if t == [] {
        if e in SubEntries(sub, s, max) {
          var i :| 0 <= i < |SubEntries(sub, s, max)| && SubEntries(sub, s, max)[i] == e;
          SubEntriesExtend(sub, s, max, i);
        }
      } else {
        assert s + t == s + [t[0]] + t[1..];
        SubEntriesAreDue(sub, 0, 0x100, s, max, t[0], t[1..], value);
      }
  }

  lemma PrefixAfter(s: seq<Byte>, a: seq<Byte>, b: seq<Byte>)
    requires s + a <= s + b
    ensures a <= b
  {
    assert a == (s + a)[|s|..] && b == (s + b)[|s|..];
    assert (s + b)[..|s + a|][|s|..] == b[..|a|];
  }

  lemma {:induction false} LinearEntriesAreDue(bytes: seq<Byte>, next: Node, s: seq<Byte>, max: int, t: seq<Byte>,
                                               value: int)
    requires Linear(bytes, next).WellFormed() && (max <= 0 || |s| <= max)
    ensures Entry(s + t, value) in NodeEntries(Linear(bytes, next), s, max) <==>
            Due(Linear(bytes, next).LookUp(t), Continues(Linear(bytes, next), t), |s| + |t|, max, value)
    decreases Linear(bytes, next), 0
  {
    var node := Linear(bytes, next);
    if 0 < max < |s| + |bytes| {
      var cut := bytes[..max - |s|];
      assert (s + t)[|s|..] == t && (s + cut)[|s|..] == cut;
      assert s + t == s + cut <==> t == cut;
      if |s| + |t| == max {
        assert t <= bytes <==> t == cut;
      }
    } else if bytes <= t {
      assert s + t == (s + bytes) + t[|bytes|..];
      EntriesAreDue(next, s + bytes, max, t[|bytes|..], value);
      if t <= bytes {
        assert t == bytes;
        EmptyContinues(next);
      }
    } else {
      forall i | 0 <= i < |NodeEntries(next, s + bytes, max)|
        ensures NodeEntries(next, s + bytes, max)[i] != Entry(s + t, value)
      {
        EntriesExtend(next, s + bytes, max, i);
        if s + bytes <= s + t {
          PrefixAfter(s, bytes, t);
        }
      }
      assert t <= bytes ==> |t| < |bytes|;
    }
  }

  lemma {:induction false} SubEntriesAreDue(sub: Sub, lo: int, hi: int, s: seq<Byte>, max: int, b: Byte, t: seq<Byte>,
                                            value: int)
    requires sub.Ordered(lo, hi) && (max <= 0 || |s| < max)
    ensures Entry(s + [b] + t, value) in SubEntries(sub, s, max) <==>
            Due(sub.LookUp(b, t), SubContinues(sub, b, t), |s| + 1 + |t|, max, value)
    decreases sub
  {
    var e := Entry(s + [b] + t, value);
    assert e.key[|s|] == b;
    match sub
    case Split(key, less, ge) =>
      SubEntriesAreDue(less, lo, key, s, max, b, t, value);
      SubEntriesAreDue(ge, key, hi, s, max, b, t, value);
      if less.HasKey(b) {
        KeysInRange(less, lo, key, b);
        if ge.HasKey(b) {
          KeysInRange(ge, key, hi, b);
        }
        OnlyKeys(ge, s, max, e);
      } else {
        OnlyKeys(less, s, max, e);
      }
    case FinalEdge(key, v, rest) =>
      SubEntriesAreDue(rest, key + 1, hi, s, max, b, t, value);
      if b == key {
        RestLacksKey(rest, key + 1, hi, s, max, e);
        assert (s + [b] + t)[|s| + 1..] == t;
        assert e.key == s + [key] <==> t == [];
      } else {
        assert (s + [key])[|s|] == key;
      }
    case JumpEdge(key, target, rest) =>
      SubEntriesAreDue(rest, key + 1, hi, s, max, b, t, value);
      if b == key {
        RestLacksKey(rest, key + 1, hi, s, max, e);
        EntriesAreDue(target, s + [b], max, t, value);
      } else {
        OtherKey(target, s, key, max, e);
      }
    case LastEdge(key, next) =>
      if b == key {
        EntriesAreDue(next, s + [b], max, t, value);
      } else {
        OtherKey(next, s, key, max, e);
      }
  }

  lemma OnlyKeys(sub: Sub, s: seq<Byte>, max: int, e: Entry)
    requires |s| < |e.key| && !sub.HasKey(e.key[|s|])
    ensures e !in SubEntries(sub, s, max)
  {
    forall i | 0 <= i < |SubEntries(sub, s, max)|
      ensures SubEntries(sub, s, max)[i] != e
    {
      SubEntriesExtend(sub, s, max, i);
    }
  }

  lemma RestLacksKey(rest: Sub, lo: int, hi: int, s: seq<Byte>, max: int, e: Entry)
    requires rest.Ordered(lo, hi) && |s| < |e.key| && e.key[|s|] < lo
    ensures e !in SubEntries(rest, s, max)
  {
    if rest.HasKey(e.key[|s|]) {
      KeysInRange(rest, lo, hi, e.key[|s|]);
    }
    OnlyKeys(rest, s, max, e);
  }

  lemma OtherKey(target: Node, s: seq<Byte>, key: Byte, max: int, e: Entry)
    requires |s| < |e.key| && e.key[|s|] != key
    ensures e !in NodeEntries(target, s + [key], max)
  {
    forall i | 0 <= i < |NodeEntries(target, s + [key], max)|
      ensures NodeEntries(target, s + [key], max)[i] != e
    {
      EntriesExtend(target, s + [key], max, i);
      assert (s + [key])[|s|] == key;
    }
  }

  // ----- the order of the list

  /** Byte order of strings. */
  ghost predicate Below(a: seq<Byte>, b: seq<Byte>) {
    exists k :: Differ(a, b, k)
  }

  /** The first difference of two strings is at `k`, where the first one is smaller or ends. */
  ghost predicate Differ(a: seq<Byte>, b: seq<Byte>, k: int) {
    0 <= k <= |a| && k < |b| && (forall i :: 0 <= i < k ==> a[i] == b[i]) && (k < |a| ==> a[k] < b[k])
  }

  ghost predicate Ascending(list: seq<Entry>) {
    forall i, j :: 0 <= i < j < |list| ==> Below(list[i].key, list[j].key)
  }

  /** Byte order is irreflexive, so an ascending list has each string once. */
  lemma AscendingDistinct(list: seq<Entry>)
    requires Ascending(list)
    ensures forall i, j :: 0 <= i < |list| && 0 <= j < |list| && list[i].key == list[j].key ==> i == j
  {
  }

  lemma AscendingConcat(first: seq<Entry>, second: seq<Entry>)
    requires Ascending(first) && Ascending(second)
    requires forall i, j :: 0 <= i < |first| && 0 <= j < |second| ==> Below(first[i].key, second[j].key)
    ensures Ascending(first + second)
  {
    var list := first + second;
    forall i, j | 0 <= i < j < |list|
      ensures Below(list[i].key, list[j].key)
    {
      if i < |first| <= j {
        assert Below(first[i].key, second[j - |first|].key);
      } else if |first| <= i {
        assert Below(second[i - |first|].key, second[j - |first|].key);
      }
    }
  }

  /** The list is in strictly ascending byte order. */
  lemma {:induction false} EntriesAscend(node: Node, s: seq<Byte>, max: int)
    requires node.WellFormed() && (max <= 0 || |s| <= max)
    ensures Ascending(NodeEntries(node, s, max))
    decreases node
  {
    match node
    case Final(_) =>
    case Value(v, next) =>
      if !(0 < max <= |s|) {
        EntriesAscend(next, s, max);
        var rest := NodeEntries(next, s, max);
        forall j | 0 <= j < |rest|
          ensures Below(s, rest[j].key)
        {
          EntriesExtend(next, s, max, j);
          NoValueExtends(next, s, max, j);
          assert Differ(s, rest[j].key, |s|);
        }
        AscendingConcat([Entry(s, v)], rest);
      }
    case Linear(bytes, next) =>
      if !(0 < max < |s| + |bytes|) {
        EntriesAscend(next, s + bytes, max);
      }
    case Branch(sub) =>
      if !(0 < max <= |s|) {
        SubEntriesAscend(sub, 0, 0x100, s, max);
      }
  }

  /** What follows a value is longer. */
  lemma NoValueExtends(node: Node, s: seq<Byte>, max: int, i: nat)
    requires node.WellFormed() && !node.IsValue() && (max <= 0 || |s| < max) && i < |NodeEntries(node, s, max)|
    ensures |s| < |NodeEntries(node, s, max)[i].key|
  {
    match node
    case Linear(bytes, next) =>
      if !(0 < max < |s| + |bytes|) {
        EntriesExtend(next, s + bytes, max, i);
      }
    case Branch(sub) => SubEntriesExtend(sub, s, max, i);
  }

  lemma {:induction false} SubEntriesAscend(sub: Sub, lo: int, hi: int, s: seq<Byte>, max: int)
    requires sub.Ordered(lo, hi) && (max <= 0 || |s| < max)
    ensures Ascending(SubEntries(sub, s, max))
    decreases sub
  {
    match sub
    case Split(key, less, ge) =>
      SubEntriesAscend(less, lo, key, s, max);
      SubEntriesAscend(ge, key, hi, s, max);
      var first, second := SubEntries(less, s, max), SubEntries(ge, s, max);
      forall i | 0 <= i < |first|
        ensures StartsBelow(first[i].key, s, key)
      {
        SubEntriesExtend(less, s, max, i);
        KeysInRange(less, lo, key, first[i].key[|s|]);
      }
      EdgesAscend(first, ge, key, hi, s, max, key);
    case FinalEdge(key, v, rest) =>
      SubEntriesAscend(rest, key + 1, hi, s, max);
      EdgesAscend([Entry(s + [key], v)], rest, key + 1, hi, s, max, key + 1);
    case JumpEdge(key, target, rest) =>
      EntriesAscend(target, s + [key], max);
      SubEntriesAscend(rest, key + 1, hi, s, max);
      var first := NodeEntries(target, s + [key], max);
      forall i | 0 <= i < |first|
        ensures StartsBelow(first[i].key, s, key + 1)
      {
        EntriesExtend(target, s + [key], max, i);
        assert (s + [key])[|s|] == key;
      }
      EdgesAscend(first, rest, key + 1, hi, s, max, key + 1);
    case LastEdge(key, next) => EntriesAscend(next, s + [key], max);
  }

  ghost predicate StartsBelow(key: seq<Byte>, s: seq<Byte>, bound: int) {
    s < key && key[|s|] < bound
  }

  /** The entries of earlier edges come before those of later ones. */
  lemma EdgesAscend(first: seq<Entry>, rest: Sub, lo: int, hi: int, s: seq<Byte>, max: int, bound: int)
    requires Ascending(first) && Ascending(SubEntries(rest, s, max)) && rest.Ordered(lo, hi) && bound <= lo
    requires forall i :: 0 <= i < |first| ==> StartsBelow(first[i].key, s, bound)
    ensures Ascending(first + SubEntries(rest, s, max))
  {
    var second := SubEntries(rest, s, max);
    forall i, j | 0 <= i < |first| && 0 <= j < |second|
      ensures Below(first[i].key, second[j].key)
    {
      SubEntriesExtend(rest, s, max, j);
      assert StartsBelow(first[i].key, s, bound);
      KeysInRange(rest, lo, hi, second[j].key[|s|]);
      assert Differ(first[i].key, second[j].key, |s|);
    }
    AscendingConcat(first, second);
  }

  /**
   The contents of a trie: its keys without repetition, in strictly ascending byte order, each
   with its value. A limit cuts off longer keys, and delivers what is left of them once.
   */
  lemma Contents(st: State, max: int)
    requires st.WellFormed()
    ensures Ascending(StateEntries(st, max))
    ensures forall key, value :: Entry(key, value) in StateEntries(st, max) <==>
              Due(st.LookUp(key), exists more :: st.LookUp(key + more).Some?, |key|, max, value)
  {
    if st != Stopped {
      var node := if st.At? then st.node else Linear(st.bytes, st.next);
      EntriesAscend(node, [], max);
      forall key, value
        ensures Entry(key, value) in StateEntries(st, max) <==>
                Due(st.LookUp(key), exists more :: st.LookUp(key + more).Some?, |key|, max, value)
      {
        EntriesAreDue(node, [], max, key, value);
        assert [] + key == key;
        if more :| st.LookUp(key + more).Some? {
          KeyContinues(node, key, more);
        } else if Continues(node, key) {
          var more := ContinuesToKey(node, key);
        }
      }
    }
  }
}
