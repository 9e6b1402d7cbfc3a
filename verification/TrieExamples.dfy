/** Bytes on which walking, iterating and searching a trie do not do what their documentation says. */
module TrieExamples {
  import opened Common
  import opened TrieNodes
  import opened TrieBytes
  import opened TrieWriting
  import opened TrieSerializing
  import opened TrieUniqueValue
  import opened BytesTries
  import TrieEntries
  import TrieIterators

  // ----- strings at once and byte by byte

  /** A trie of one string, a byte 0x80 with the value 0, and its bytes. */
  lemma OneByteTrie()
    ensures var root := Linear([0x80], Final(0));
            root.WellFormed() && Encodes([0x10, 0x80, 0x21], 0, root)
  {
    var bytes: seq<Byte> := [0x10, 0x80, 0x21];
    assert ValueAt(bytes, 2, 0, true, 3);
  }

  /** Feeding the string at once finds no match, feeding its byte finds the value. */
  method CharsAreNotBytes() returns (atOnce: Result, byByte: Result, value: int)
    ensures atOnce == NoMatch && byByte == FinalValue && value == 0
  {
    OneByteTrie();
    hide Encodes;
    var bytes: seq<Byte> := [0x10, 0x80, 0x21];
    ghost var root := Linear([0x80], Final(0));
    var trie := new BytesTrie(bytes, root);
    assert trie.st == At(root);
    var s: seq<Byte> := [0x80];
    assert s[0] == 0x80;
    NonAsciiStops(trie.st, s, 1);
    atOnce := trie.NextString(s, 1, 1);
    trie.Reset();
    byByte := trie.Next(0x80);
    value := trie.GetValue();
  }

  // ----- an iterator that cannot be made

  lemma PairTrie()
    ensures var root := Linear([1, 2], Final(0));
            root.WellFormed() && Encodes([0x11, 1, 2, 0x21], 0, root)
  {
    var bytes: seq<Byte> := [0x11, 1, 2, 0x21];
    assert ValueAt(bytes, 3, 0, true, 4);
    assert [1, 2] <= bytes[1..];
  }

  /**
   After a walk that stops within a linear-match node, making an iterator fails, though the
   trie is as stopped as after the other walk.
   */
  method StoppedTriesDiffer() returns (midway: bool, atStart: bool)
    ensures midway && !atStart
  {
    PairTrie();
    hide Encodes;
    var bytes: seq<Byte> := [0x11, 1, 2, 0x21];
    ghost var root := Linear([1, 2], Final(0));
    var trie := new BytesTrie(bytes, root);
    var r := trie.Next(1);
    r := trie.Next(3);
    assert trie.st == Stopped;
    var it := new TrieIterators.Iterator.FromTrie(trie, 0);
    midway := it.illegalArgument;
    trie.Reset();
    r := trie.Next(3);
    assert trie.st == Stopped;
    it := new TrieIterators.Iterator.FromTrie(trie, 0);
    atStart := it.illegalArgument;
  }

  // ----- a unique value that is none

  /** For every shape with a branch of more than five edges there are bytes that the search answers wrongly. */
  lemma WrongForWide(node: Node)
    requires node.WellFormed() && Laid(node) && !Narrow(node)
    ensures var other := Marked(node);
            SameShape(node, other) && other.WellFormed() && !AllSame(other) && CheckNode(other, None) == Same(0) &&
            (|Serialize(other)| < 0x8000_0000 ==> Encodes(Serialize(other), 0, other))
  {
    hide Encodes, NodeBefore, Node.WellFormed, Node.LookUp;
    var other := Marked(node);
    MarkedShape(node);
    ShapeDecides(node, other);
    MarkIsMissed(node, None);
    MarkedStorable(node);
    if |Serialize(other)| < 0x8000_0000 {
      SerializeRoundTrip(other);
    }
    var one := MarkedKey(node);
    var zero := FoundIsThere(other, 0, None);
  }

  lemma {:induction false} FlatStorable(node: Node, v: int)
    requires IsInt32(v)
    ensures Storable(Flat(node, v))
    decreases node
  {
    match node
    case Final(_) =>
    case Value(_, next) => FlatStorable(next, v);
    case Linear(_, next) => FlatStorable(next, v);
    case Branch(sub) => SubFlatStorable(sub, v);
  }

  lemma {:induction false} SubFlatStorable(sub: Sub, v: int)
    requires IsInt32(v)
    ensures SubStorable(SubFlat(sub, v))
    decreases sub
  {
    match sub
    case Split(_, less, ge) =>
      SubFlatStorable(less, v);
      SubFlatStorable(ge, v);
    case FinalEdge(_, _, rest) => SubFlatStorable(rest, v);
    case JumpEdge(_, target, rest) =>
      FlatStorable(target, v);
      SubFlatStorable(rest, v);
    case LastEdge(_, next) => FlatStorable(next, v);
  }

  lemma {:induction false} LastMarkedStorable(sub: Sub)
    ensures SubStorable(LastMarked(sub))
    decreases sub
  {
    match sub
    case Split(_, less, ge) =>
      SubFlatStorable(less, 0);
      LastMarkedStorable(ge);
    case FinalEdge(_, _, rest) => LastMarkedStorable(rest);
    case JumpEdge(_, target, rest) =>
      FlatStorable(target, 0);
      LastMarkedStorable(rest);
    case LastEdge(_, next) => FlatStorable(next, 1);
  }

  lemma {:induction false} MarkedStorable(node: Node)
    ensures Storable(Marked(node))
    decreases node
  {
    match node
    case Final(_) =>
    case Value(_, next) => MarkedStorable(next);
    case Linear(_, next) => MarkedStorable(next);
    case Branch(sub) => SubMarkedStorable(sub);
  }

  lemma {:induction false} SubMarkedStorable(sub: Sub)
    ensures SubStorable(SubMarked(sub))
    decreases sub
  {
    match sub
    case Split(_, less, ge) =>
      LastMarkedStorable(less);
      SubFlatStorable(ge, 0);
    case FinalEdge(_, _, rest) => SubMarkedStorable(rest);
    case JumpEdge(_, target, rest) =>
      FlatStorable(target, 0);
      MarkedStorable(target);
      SubMarkedStorable(rest);
      SubFlatStorable(rest, 0);
    case LastEdge(_, next) => MarkedStorable(next);
  }

  /** A branch of six edges: the string [2] has the value 1, the other five strings have the value 0. */
  ghost function SixEdges(): Node {
    Branch(Split(3, FinalEdge(0, 0, FinalEdge(1, 0, LastEdge(2, Final(1)))),
                 FinalEdge(3, 0, FinalEdge(4, 0, LastEdge(5, Final(0))))))
  }

  lemma SixEdgesBytes(bytes: seq<Byte>)
    requires bytes == [5, 3, 6, 3, 0x21, 4, 0x21, 5, 0x21, 0, 0x21, 1, 0x21, 2, 0x23]
    ensures SixEdges().WellFormed() && Encodes(bytes, 0, SixEdges())
  {
    ListOfThree(bytes, 9, 0, 1);
    ListOfThree(bytes, 3, 3, 0);
    assert DeltaAt(bytes, 2) && JumpByDelta(bytes, 2) == 9 && SkipDelta(bytes, 2) == 3;
    hide ReadDelta, ReadValue, ValueAt;
  }

  lemma SixEdgesAnswers()
    ensures CheckNode(SixEdges(), None) == Same(0)
    ensures StepInt(At(SixEdges()), 2) == At(Final(1)) && StepInt(At(SixEdges()), 0) == At(Final(0))
  {
  }

  lemma ListOfThree(bytes: seq<Byte>, pos: nat, key: Byte, last: nat)
    requires pos + 6 <= |bytes| && key <= 3 && last <= 1
    requires bytes[pos] == key && bytes[pos + 1] == 0x21 && bytes[pos + 2] == key + 1 && bytes[pos + 3] == 0x21
    requires bytes[pos + 4] == key + 2 && bytes[pos + 5] == 0x21 + 2 * last
    ensures EncodesSub(bytes, pos, FinalEdge(key, 0, FinalEdge(key + 1, 0, LastEdge(key + 2, Final(last)))))
  {
    assert ValueAt(bytes, pos + 5, last, true, pos + 6);
    assert EncodesSub(bytes, pos + 4, LastEdge(key + 2, Final(last)));
    assert ValueAt(bytes, pos + 3, 0, true, pos + 4);
    assert EncodesSub(bytes, pos + 2, FinalEdge(key + 1, 0, LastEdge(key + 2, Final(last))));
    assert ValueAt(bytes, pos + 1, 0, true, pos + 2);
  }

  /** The search answers that all strings have the value 0, though the string [2] has the value 1. */
  method TwoValuesAreCalledUnique() returns (unique: bool, uniqueValue: int, value: int)
    ensures unique && uniqueValue == 0 && value == 1
  {
    var bytes: seq<Byte> := [5, 3, 6, 3, 0x21, 4, 0x21, 5, 0x21, 0, 0x21, 1, 0x21, 2, 0x23];
    SixEdgesBytes(bytes);
    SixEdgesAnswers();
    hide Encodes, Node.WellFormed, CheckNode, StepInt, SixEdges;
    var trie := new BytesTrie(bytes, SixEdges());
    unique, uniqueValue := HasUniqueValue(trie);
    var r := trie.Next(2);
    value := trie.GetValue();
  }
}
