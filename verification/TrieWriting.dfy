/** How a trie builder writes integers, and that the reader reads them back. */
module TrieWriting {
  import opened Common
  import opened TrieNodes
  import opened TrieBytes

  predicate IsInt32(i: int) {
    -0x8000_0000 <= i < 0x8000_0000
  }

  /** One byte of a 32-bit integer, by its place value. */
  function ByteOf(i: int, place: int): Byte
    requires 0 < place
  {
    i / place % 0x100
  }

  function ValueBytes(i: int, isFinal: bool): seq<Byte> {
    var final := if isFinal then 1 else 0;
    if 0 <= i <= MAX_ONE_BYTE_VALUE then [(MIN_ONE_BYTE_VALUE_LEAD + i) * 2 + final]
    else if i < 0 || i > 0xff_ffff then
      [FIVE_BYTE_VALUE_LEAD * 2 + final, ByteOf(i, 0x100_0000), ByteOf(i, 0x1_0000), ByteOf(i, 0x100), ByteOf(i, 1)]
    else if i <= MAX_TWO_BYTE_VALUE then [(MIN_TWO_BYTE_VALUE_LEAD + i / 0x100) * 2 + final, ByteOf(i, 1)]
    else if i <= MAX_THREE_BYTE_VALUE then
      [(MIN_THREE_BYTE_VALUE_LEAD + i / 0x1_0000) * 2 + final, ByteOf(i, 0x100), ByteOf(i, 1)]
    else [FOUR_BYTE_VALUE_LEAD * 2 + final, ByteOf(i, 0x1_0000), ByteOf(i, 0x100), ByteOf(i, 1)]
  }

  function DeltaBytes(i: nat): seq<Byte> {
    if i <= MAX_ONE_BYTE_DELTA then [i]
    else if i <= MAX_TWO_BYTE_DELTA then [MIN_TWO_BYTE_DELTA_LEAD + i / 0x100, ByteOf(i, 1)]
    else if i <= MAX_THREE_BYTE_DELTA then [MIN_THREE_BYTE_DELTA_LEAD + i / 0x1_0000, ByteOf(i, 0x100), ByteOf(i, 1)]
    else if i <= 0xff_ffff then [FOUR_BYTE_DELTA_LEAD, ByteOf(i, 0x1_0000), ByteOf(i, 0x100), ByteOf(i, 1)]
    else [FIVE_BYTE_DELTA_LEAD, ByteOf(i, 0x100_0000), ByteOf(i, 0x1_0000), ByteOf(i, 0x100), ByteOf(i, 1)]
  }

  /** Bytes read within a longer sequence. */
  lemma {:induction false} BigEndianWithin(more: seq<Byte>, bytes: seq<Byte>, pos: nat, n: nat)
    requires pos + n <= |bytes|
    ensures BigEndian(more + bytes, |more| + pos, n) == BigEndian(bytes, pos, n)
  {
    if n > 0 {
      BigEndianWithin(more, bytes, pos, n - 1);
    }
  }

  lemma BigEndianIs(bytes: seq<Byte>, pos: nat, n: nat)
    requires n <= 4 && pos + n <= |bytes|
    ensures n == 1 ==> BigEndian(bytes, pos, n) == bytes[pos]
    ensures n == 2 ==> BigEndian(bytes, pos, n) == bytes[pos] as int * 0x100 + bytes[pos + 1]
    ensures n == 3 ==>
              BigEndian(bytes, pos, n) ==
              bytes[pos] as int * 0x1_0000 + bytes[pos + 1] as int * 0x100 + bytes[pos + 2]
    ensures n == 4 ==>
              BigEndian(bytes, pos, n) ==
              bytes[pos] as int * 0x100_0000 + bytes[pos + 1] as int * 0x1_0000 + bytes[pos + 2] as int * 0x100 +
                bytes[pos + 3]
  {
    assert n >= 1 ==> BigEndian(bytes, pos, 1) == bytes[pos];
    assert n >= 2 ==> BigEndian(bytes, pos, 2) == BigEndian(bytes, pos, 1) * 0x100 + bytes[pos + 1];
    assert n >= 3 ==> BigEndian(bytes, pos, 3) == BigEndian(bytes, pos, 2) * 0x100 + bytes[pos + 2];
    assert n >= 4 ==> BigEndian(bytes, pos, 4) == BigEndian(bytes, pos, 3) * 0x100 + bytes[pos + 3];
  }

  /** The bytes of a 32-bit integer, put together again. */
  lemma BytesOf(i: int)
    requires IsInt32(i)
    ensures Signed(ByteOf(i, 0x100_0000) as int * 0x100_0000 + ByteOf(i, 0x1_0000) as int * 0x1_0000 +
                   ByteOf(i, 0x100) as int * 0x100 + ByteOf(i, 1)) == i
    ensures 0 <= i ==> i == i / 0x100 * 0x100 + ByteOf(i, 1)
    ensures 0 <= i ==> i == i / 0x1_0000 * 0x1_0000 + ByteOf(i, 0x100) as int * 0x100 + ByteOf(i, 1)
    ensures 0 <= i < 0x100_0000 ==> ByteOf(i, 0x1_0000) == i / 0x1_0000
  {
    assert i / 0x1_0000 == i / 0x100 / 0x100;
    assert i / 0x100_0000 == i / 0x1_0000 / 0x100;
  }

  /** Every value, final or not, is read back, and the reader ends after it. */
  lemma ValueRoundTrip(i: int, isFinal: bool, rest: seq<Byte>)
    requires IsInt32(i)
    ensures ValueAt(ValueBytes(i, isFinal) + rest, 0, i, isFinal, |ValueBytes(i, isFinal)|)
  {
    if 0 <= i <= 0xff_ffff {
      ShortValue(i, isFinal, rest);
    } else {
      LongValue(i, isFinal, rest);
    }
  }

  lemma LongValue(i: int, isFinal: bool, rest: seq<Byte>)
    requires IsInt32(i) && (i < 0 || i > 0xff_ffff)
    ensures ValueAt(ValueBytes(i, isFinal) + rest, 0, i, isFinal, |ValueBytes(i, isFinal)|)
  {
    hide BigEndian, ByteOf;
    var bytes := ValueBytes(i, isFinal) + rest;
    BytesOf(i);
    BigEndianIs(bytes, 1, 4);
  }

  lemma ShortValue(i: nat, isFinal: bool, rest: seq<Byte>)
    requires i <= 0xff_ffff
    ensures ValueAt(ValueBytes(i, isFinal) + rest, 0, i, isFinal, |ValueBytes(i, isFinal)|)
  {
    if i <= MAX_TWO_BYTE_VALUE {
      OneOrTwoBytes(i, isFinal, rest);
    } else {
      ThreeOrFourBytes(i, isFinal, rest);
    }
  }

  lemma OneOrTwoBytes(i: nat, isFinal: bool, rest: seq<Byte>)
    requires i <= MAX_TWO_BYTE_VALUE
    ensures ValueAt(ValueBytes(i, isFinal) + rest, 0, i, isFinal, |ValueBytes(i, isFinal)|)
  {
    hide BigEndian, ByteOf, Signed;
    var bytes := ValueBytes(i, isFinal) + rest;
    BytesOf(i);
    if i > MAX_ONE_BYTE_VALUE {
      BigEndianIs(bytes, 1, 1);
    }
  }

  lemma ThreeOrFourBytes(i: nat, isFinal: bool, rest: seq<Byte>)
    requires MAX_TWO_BYTE_VALUE < i <= 0xff_ffff
    ensures ValueAt(ValueBytes(i, isFinal) + rest, 0, i, isFinal, |ValueBytes(i, isFinal)|)
  {
    hide BigEndian, ByteOf, Signed;
    var bytes := ValueBytes(i, isFinal) + rest;
    BytesOf(i);
    BigEndianIs(bytes, 1, |ValueBytes(i, isFinal)| - 1);
  }

  /** A jump was read at `pos` and leads to the place `target` bytes before the end. */
  ghost predicate LandsAt(bytes: seq<Byte>, pos: nat, target: nat) {
    DeltaAt(bytes, pos) && JumpByDelta(bytes, pos) == |bytes| - target
  }

  /** Every jump leads from after its bytes to its target. */
  lemma DeltaRoundTrip(i: nat, rest: seq<Byte>)
    requires i < 0x8000_0000
    ensures DeltaAt(DeltaBytes(i) + rest, 0) && SkipDelta(DeltaBytes(i) + rest, 0) == |DeltaBytes(i)|
    ensures JumpByDelta(DeltaBytes(i) + rest, 0) == |DeltaBytes(i)| + i
  {
    var bytes := DeltaBytes(i) + rest;
    BytesOf(i);
    BigEndianIs(bytes, 1, |DeltaBytes(i)| - 1);
  }

  // ----- writing before what is already there

  lemma ValueWithin(more: seq<Byte>, bytes: seq<Byte>, pos: nat, lead: nat)
    requires pos + ValueTail(lead * 2) <= |bytes| && MIN_ONE_BYTE_VALUE_LEAD <= lead <= FIVE_BYTE_VALUE_LEAD
    ensures ReadValue(more + bytes, |more| + pos, lead) == ReadValue(bytes, pos, lead)
  {
    BigEndianWithin(more, bytes, pos, ValueTail(lead * 2));
  }

  lemma DeltaWithin(more: seq<Byte>, bytes: seq<Byte>, pos: nat)
    requires DeltaAt(bytes, pos)
    ensures DeltaAt(more + bytes, |more| + pos) &&
            SkipDelta(more + bytes, |more| + pos) == |more| + SkipDelta(bytes, pos)
    ensures JumpByDelta(more + bytes, |more| + pos) == |more| + JumpByDelta(bytes, pos)
  {
    BigEndianWithin(more, bytes, pos + 1, DeltaTail(bytes[pos]));
  }

  /** A jump to the place `target` bytes before the end leads there whatever is written before it. */
  lemma DeltaLands(more: seq<Byte>, written: seq<Byte>, target: nat)
    requires target <= |written| < 0x8000_0000
    ensures LandsAt(more + (DeltaBytes(|written| - target) + written), |more|, target)
  {
    hide DeltaBytes, DeltaAt, JumpByDelta, SkipDelta;
    DeltaRoundTrip(|written| - target, written);
    DeltaWithin(more, DeltaBytes(|written| - target) + written, 0);
  }

  lemma ValueAtWithin(more: seq<Byte>, bytes: seq<Byte>, pos: nat, value: int, isFinal: bool, end: nat)
    requires ValueAt(bytes, pos, value, isFinal, end)
    ensures ValueAt(more + bytes, |more| + pos, value, isFinal, |more| + end)
  {
    hide ReadValue;
    ValueWithin(more, bytes, pos + 1, bytes[pos] / 2);
  }

  /** A node stays encoded when something is written before it. */
  lemma {:induction false} EncodesWithin(more: seq<Byte>, bytes: seq<Byte>, pos: nat, node: Node)
    requires Encodes(bytes, pos, node)
    ensures Encodes(more + bytes, |more| + pos, node)
    decreases node
  {
    hide ValueAt, EncodesSub, ValueTail;
    match node
    case Final(value) => ValueAtWithin(more, bytes, pos, value, true, SkipValue(pos + 1, bytes[pos]));
    case Value(value, next) =>
      ValueAtWithin(more, bytes, pos, value, false, SkipValue(pos + 1, bytes[pos]));
      EncodesWithin(more, bytes, SkipValue(pos + 1, bytes[pos]), next);
    case Linear(match_, next) =>
      assert (more + bytes)[|more| + pos + 1..] == bytes[pos + 1..];
      EncodesWithin(more, bytes, pos + 1 + |match_|, next);
    case Branch(sub) => EncodesSubWithin(more, bytes, if bytes[pos] == 0 then pos + 2 else pos + 1, sub);
  }

  lemma {:induction false} EncodesSubWithin(more: seq<Byte>, bytes: seq<Byte>, pos: nat, sub: Sub)
    requires EncodesSub(bytes, pos, sub)
    ensures EncodesSub(more + bytes, |more| + pos, sub)
    decreases sub
  {
    hide DeltaAt, JumpByDelta, SkipDelta, ReadValue, Encodes;
    match sub
    case Split(_, less, ge) =>
      DeltaWithin(more, bytes, pos + 1);
      EncodesSubWithin(more, bytes, JumpByDelta(bytes, pos + 1), less);
      EncodesSubWithin(more, bytes, SkipDelta(bytes, pos + 1), ge);
    case FinalEdge(_, _, rest) =>
      ValueWithin(more, bytes, pos + 2, bytes[pos + 1] / 2);
      EncodesSubWithin(more, bytes, SkipValue(pos + 2, bytes[pos + 1]), rest);
    case JumpEdge(_, target, rest) =>
      var end := SkipValue(pos + 2, bytes[pos + 1]);
      ValueWithin(more, bytes, pos + 2, bytes[pos + 1] / 2);
      EncodedAt(bytes, end + ReadValue(bytes, pos + 2, bytes[pos + 1] / 2), target);
      EncodesWithin(more, bytes, end + ReadValue(bytes, pos + 2, bytes[pos + 1] / 2), target);
      EncodesSubWithin(more, bytes, end, rest);
    case LastEdge(_, next) => EncodesWithin(more, bytes, pos + 1, next);
  }

  /** A value written before a node makes a value node. */
  lemma ValueNodes(i: int, isFinal: bool, written: seq<Byte>)
    requires IsInt32(i)
    ensures isFinal ==> Encodes(ValueBytes(i, isFinal) + written, 0, Final(i))
    ensures !isFinal ==> forall next :: Encodes(written, 0, next) ==>
              Encodes(ValueBytes(i, isFinal) + written, 0, Value(i, next))
  {
    var bytes := ValueBytes(i, isFinal) + written;
    ValueRoundTrip(i, isFinal, written);
    if !isFinal {
      forall next | Encodes(written, 0, next)
        ensures Encodes(bytes, 0, Value(i, next))
      {
        EncodesWithin(ValueBytes(i, isFinal), written, 0, next);
      }
    }
  }

  /** A lead byte and the match bytes before a node make a linear-match node. */
  lemma LinearNode(s: seq<Byte>, next: Node, written: seq<Byte>)
    requires 1 <= |s| <= MAX_LINEAR_MATCH_LENGTH && Encodes(written, 0, next)
    ensures Encodes([(MIN_LINEAR_MATCH + |s| - 1) as Byte] + (s + written), 0, Linear(s, next))
  {
    hide Encodes;
    var lead: Byte := MIN_LINEAR_MATCH + |s| - 1;
    var bytes := [lead] + (s + written);
    assert bytes == ([lead] + s) + written && bytes[1..] == s + written;
    EncodesWithin([lead] + s, written, 0, next);
    LinearAt(bytes, s, next);
  }

  lemma LinearAt(bytes: seq<Byte>, s: seq<Byte>, next: Node)
    requires 1 <= |s| <= MAX_LINEAR_MATCH_LENGTH && 1 + |s| <= |bytes| && bytes[0] == MIN_LINEAR_MATCH + |s| - 1
    requires s <= bytes[1..] && Encodes(bytes, 1 + |s|, next)
    ensures Encodes(bytes, 0, Linear(s, next))
  {
  }

  /** An edge with a jump, written before the other edges of a list, leads to a node written earlier. */
  lemma JumpEdgeBefore(key: Byte, target: Node, place: nat, rest: Sub, written: seq<Byte>)
    requires place <= |written| < 0x8000_0000 && Encodes(written, |written| - place, target)
    requires EncodesSub(written, 0, rest) && rest.Size() < MAX_BRANCH_LINEAR_SUB_NODE_LENGTH
    ensures EncodesSub([key] + (ValueBytes(|written| - place, false) + written), 0, JumpEdge(key, target, rest))
  {
    hide ValueBytes, Encodes, ReadValue;
    var value := ValueBytes(|written| - place, false);
    var bytes := [key] + (value + written);
    ValueRoundTrip(|written| - place, false, written);
    ValueWithin([key], value + written, 1, (value + written)[0] / 2);
    assert bytes == ([key] + value) + written;
    EncodesWithin([key] + value, written, |written| - place, target);
    EncodesSubWithin([key] + value, written, 0, rest);
    assert SkipValue(2, bytes[1]) == |[key] + value|;
  }

  /**
   A comparison byte and a jump, written before the edges from that byte on, lead to the other
   edges written earlier.
   */
  lemma SplitBefore(key: Byte, less: Sub, place: nat, ge: Sub, written: seq<Byte>)
    requires place <= |written| < 0x8000_0000 && EncodesSub(written, |written| - place, less) &&
             EncodesSub(written, 0, ge)
    requires less.Size() == (less.Size() + ge.Size()) / 2 && MAX_BRANCH_LINEAR_SUB_NODE_LENGTH < less.Size() + ge.Size()
    ensures EncodesSub([key] + (DeltaBytes(|written| - place) + written), 0, Split(key, less, ge))
  {
    hide DeltaBytes, DeltaAt, JumpByDelta, SkipDelta, Encodes;
    var delta := DeltaBytes(|written| - place);
    var bytes := [key] + (delta + written);
    DeltaRoundTrip(|written| - place, written);
    DeltaWithin([key], delta + written, 0);
    assert bytes == ([key] + delta) + written;
    EncodesSubWithin([key] + delta, written, |written| - place, less);
    EncodesSubWithin([key] + delta, written, 0, ge);
  }
}
