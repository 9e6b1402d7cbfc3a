/**
 Serializing a whole trie, from its end to its start, in the order of the builder's fast
 option in `icu/common/stringtriebuilder.cpp`: whatever the trie, its bytes encode it.
 */
module TrieSerializing {
  import opened Common
  import opened TrieNodes
  import opened TrieBytes
  import opened TrieWriting

  /** All values are 32-bit integers. */
  ghost predicate Storable(node: Node) {
    match node
    case Final(value) => IsInt32(value)
    case Value(value, next) => IsInt32(value) && Storable(next)
    case Linear(_, next) => Storable(next)
    case Branch(sub) => SubStorable(sub)
  }

  ghost predicate SubStorable(sub: Sub) {
    match sub
    case Split(_, less, ge) => SubStorable(less) && SubStorable(ge)
    case FinalEdge(_, value, rest) => IsInt32(value) && SubStorable(rest)
    case JumpEdge(_, target, rest) => Storable(target) && SubStorable(rest)
    case LastEdge(_, next) => Storable(next)
  }

  /** The lead byte of a linear-match node of at most 16 bytes. */
  function LinearLead(length: nat): Byte {
    (MIN_LINEAR_MATCH + length - 1) % 0x100
  }

  /** The head of a branch: one less than the number of its edges, after a zero byte if that is no lead byte. */
  function HeadBytes(size: nat): seq<Byte>
    requires 0 < size
  {
    if size - 1 < MIN_LINEAR_MATCH then [size - 1] else [0, (size - 1) % 0x100]
  }

  /** A node, written before `w`. */
  ghost function NodeBefore(node: Node, w: seq<Byte>): (r: seq<Byte>)
    ensures |w| < |r|
    decreases node
  {
    match node
    case Final(value) => ValueBytes(value, true) + w
    case Value(value, next) => ValueBytes(value, false) + NodeBefore(next, w)
    case Linear(bytes, next) => [LinearLead(|bytes|)] + (bytes + NodeBefore(next, w))
    case Branch(sub) => HeadBytes(sub.Size()) + SubBefore(sub, w)
  }

  /** The edges of a branch, written before `w`: what a comparison byte leads to when it is greater comes first. */
  ghost function SubBefore(sub: Sub, w: seq<Byte>): (r: seq<Byte>)
    ensures |w| < |r|
    decreases sub, 2
  {
    match sub
    case Split(key, less, ge) =>
      var w1 := SubBefore(less, w);
      var w2 := SubBefore(ge, w1);
      [key] + (DeltaBytes(|w2| - |w1|) + w2)
    case _ => ListBefore(sub, w, TargetsBefore(sub, w))
  }

  /** The nodes that the edges of a list jump to, the first edge's last; the places count from the end. */
  ghost function TargetsBefore(sub: Sub, w: seq<Byte>): (r: seq<Byte>)
    ensures |w| <= |r|
    decreases sub, 0
  {
    match sub
    case FinalEdge(_, _, rest) => TargetsBefore(rest, w)
    case JumpEdge(_, target, rest) => NodeBefore(target, TargetsBefore(rest, w))
    case _ => w
  }

  /** The edges of a list, before `top` that ends with the nodes they jump to. */
  ghost function ListBefore(sub: Sub, w: seq<Byte>, top: seq<Byte>): (r: seq<Byte>)
    ensures |top| < |r|
    decreases sub, 1
  {
    match sub
    case Split(key, _, ge) => [key] + top
    case FinalEdge(key, value, rest) => [key] + (ValueBytes(value, true) + ListBefore(rest, w, top))
    case JumpEdge(key, _, rest) =>
      var list := ListBefore(rest, w, top);
      [key] + (ValueBytes(|list| - |TargetsBefore(sub, w)|, false) + list)
    case LastEdge(key, next) => [key] + NodeBefore(next, top)
  }

  /** A whole trie. */
  ghost function Serialize(node: Node): seq<Byte> {
    NodeBefore(node, [])
  }

  // ----- what was written before is still there

  ghost predicate Extends(all: seq<Byte>, w: seq<Byte>) {
    |w| <= |all| && all[|all| - |w|..] == w
  }

  lemma Prepended(more: seq<Byte>, w: seq<Byte>, w0: seq<Byte>)
    requires Extends(w, w0)
    ensures Extends(more + w, w0)
  {
  }

  lemma ExtendsTwice(a: seq<Byte>, b: seq<Byte>, c: seq<Byte>)
    requires Extends(a, b) && Extends(b, c)
    ensures Extends(a, c)
  {
    assert a[|a| - |c|..] == a[|a| - |b|..][|b| - |c|..];
  }

  lemma {:induction false} NodeExtends(node: Node, w: seq<Byte>)
    ensures Extends(NodeBefore(node, w), w)
    decreases node
  {
    hide Extends, ValueBytes, HeadBytes;
    assert Extends(w, w) by { ExtendsSame(w); }
    match node
    case Final(value) => Prepended(ValueBytes(value, true), w, w);
    case Value(value, next) =>
      NodeExtends(next, w);
      Prepended(ValueBytes(value, false), NodeBefore(next, w), w);
    case Linear(bytes, next) =>
      NodeExtends(next, w);
      Prepended(bytes, NodeBefore(next, w), w);
      Prepended([LinearLead(|bytes|)], bytes + NodeBefore(next, w), w);
    case Branch(sub) =>
      SubExtends(sub, w);
      Prepended(HeadBytes(sub.Size()), SubBefore(sub, w), w);
  }

  lemma ExtendsSame(w: seq<Byte>)
    ensures Extends(w, w)
  {
  }

  lemma {:induction false} SubExtends(sub: Sub, w: seq<Byte>)
    ensures Extends(SubBefore(sub, w), w)
    decreases sub, 2
  {
    hide Extends, DeltaBytes, NodeBefore, ListBefore, TargetsBefore;
    match sub
    case Split(key, less, ge) =>
      var w1 := SubBefore(less, w);
      var w2 := SubBefore(ge, w1);
      SubExtends(less, w);
      SubExtends(ge, w1);
      ExtendsTwice(w2, w1, w);
      Prepended(DeltaBytes(|w2| - |w1|), w2, w);
      Prepended([key], DeltaBytes(|w2| - |w1|) + w2, w);
    case _ =>
      TargetsExtend(sub, w);
      ListExtends(sub, w, TargetsBefore(sub, w));
      ExtendsTwice(SubBefore(sub, w), TargetsBefore(sub, w), w);
  }

  lemma {:induction false} TargetsExtend(sub: Sub, w: seq<Byte>)
    ensures Extends(TargetsBefore(sub, w), w)
    decreases sub, 0
  {
    hide Extends, NodeBefore;
    ExtendsSame(w);
    match sub
    case FinalEdge(_, _, rest) => TargetsExtend(rest, w);
    case JumpEdge(_, target, rest) =>
      TargetsExtend(rest, w);
      NodeExtends(target, TargetsBefore(rest, w));
      ExtendsTwice(TargetsBefore(sub, w), TargetsBefore(rest, w), w);
    case _ =>
  }

  lemma {:induction false} ListExtends(sub: Sub, w: seq<Byte>, top: seq<Byte>)
    ensures Extends(ListBefore(sub, w, top), top)
    decreases sub, 1
  {
    hide Extends, ValueBytes, NodeBefore, TargetsBefore;
    ExtendsSame(top);
    match sub
    case Split(key, _, _) => Prepended([key], top, top);
    case FinalEdge(key, value, rest) =>
      var list := ListBefore(rest, w, top);
      ListExtends(rest, w, top);
      Prepended(ValueBytes(value, true), list, top);
      Prepended([key], ValueBytes(value, true) + list, top);
    case JumpEdge(key, _, rest) =>
      var list := ListBefore(rest, w, top);
      var delta := ValueBytes(|list| - |TargetsBefore(sub, w)|, false);
      ListExtends(rest, w, top);
      Prepended(delta, list, top);
      Prepended([key], delta + list, top);
    case LastEdge(key, next) =>
      NodeExtends(next, top);
      Prepended([key], NodeBefore(next, top), top);
  }

  // ----- the bytes encode the trie

  lemma {:induction false} SizeFits(sub: Sub, lo: int, hi: int)
    requires sub.Ordered(lo, hi)
    ensures sub.Size() <= hi - lo
  {
    match sub
    case Split(key, less, ge) =>
      SizeFits(less, lo, key);
      SizeFits(ge, key, hi);
    case FinalEdge(key, _, rest) => SizeFits(rest, key + 1, hi);
    case JumpEdge(key, _, rest) => SizeFits(rest, key + 1, hi);
    case LastEdge(_, _) =>
  }

  /** A head before the edges of a branch makes a branch node. */
  lemma BranchHead(sub: Sub, written: seq<Byte>)
    requires EncodesSub(written, 0, sub) && 2 <= sub.Size() <= 0x100
    ensures Encodes(HeadBytes(sub.Size()) + written, 0, Branch(sub))
  {
    hide EncodesSub;
    EncodesSubWithin(HeadBytes(sub.Size()), written, 0, sub);
  }

  /** A key before a node makes the last edge of a list. */
  lemma LastEdgeBefore(key: Byte, next: Node, written: seq<Byte>)
    requires Encodes(written, 0, next)
    ensures EncodesSub([key] + written, 0, LastEdge(key, next))
  {
    hide Encodes;
    EncodesWithin([key], written, 0, next);
  }

  /** A key and a final value before other edges of a list make an edge of it. */
  lemma FinalEdgeBefore(key: Byte, value: int, rest: Sub, written: seq<Byte>)
    requires IsInt32(value) && EncodesSub(written, 0, rest) && rest.Size() < MAX_BRANCH_LINEAR_SUB_NODE_LENGTH
    ensures EncodesSub([key] + (ValueBytes(value, true) + written), 0, FinalEdge(key, value, rest))
  {
    hide ValueBytes, Encodes, ReadValue;
    var v := ValueBytes(value, true);
    var bytes := [key] + (v + written);
    ValueRoundTrip(value, true, written);
    ValueWithin([key], v + written, 1, (v + written)[0] / 2);
    assert bytes == ([key] + v) + written;
    EncodesSubWithin([key] + v, written, 0, rest);
    assert SkipValue(2, bytes[1]) == |[key] + v|;
  }

  /** What was encoded at its start is encoded at its place in what extends it. */
  lemma EncodedFarther(all: seq<Byte>, w: seq<Byte>, node: Node)
    requires Extends(all, w) && Encodes(w, 0, node)
    ensures Encodes(all, |all| - |w|, node)
  {
    hide Encodes;
    var more := all[..|all| - |w|];
    assert all == more + w;
    EncodesWithin(more, w, 0, node);
  }

  lemma SubEncodedFarther(all: seq<Byte>, w: seq<Byte>, sub: Sub)
    requires Extends(all, w) && EncodesSub(w, 0, sub)
    ensures EncodesSub(all, |all| - |w|, sub)
  {
    hide EncodesSub;
    var more := all[..|all| - |w|];
    assert all == more + w;
    EncodesSubWithin(more, w, 0, sub);
  }

  /** Every trie of 32-bit values whose branches are halved as the reader expects is read back from its bytes. */
  lemma {:induction false} NodeIsEncoded(node: Node, w: seq<Byte>)
    requires node.WellFormed() && Laid(node) && Storable(node) && |NodeBefore(node, w)| < 0x8000_0000
    ensures Encodes(NodeBefore(node, w), 0, node)
    decreases node
  {
    hide Encodes, EncodesSub, ValueBytes, HeadBytes, Sub.Ordered;
    match node
    case Final(value) => ValueNodes(value, true, w);
    case Value(value, next) =>
      NodeIsEncoded(next, w);
      ValueNodes(value, false, NodeBefore(next, w));
    case Linear(bytes, next) =>
      NodeIsEncoded(next, w);
      LinearNode(bytes, next, NodeBefore(next, w));
    case Branch(sub) =>
      SubIsEncoded(sub, w, 0, 0x100);
      SizeFits(sub, 0, 0x100);
      BranchHead(sub, SubBefore(sub, w));
  }

  lemma {:induction false} SubIsEncoded(sub: Sub, w: seq<Byte>, lo: int, hi: int)
    requires sub.Ordered(lo, hi) && SubLaid(sub) && SubStorable(sub) && |SubBefore(sub, w)| < 0x8000_0000
    ensures EncodesSub(SubBefore(sub, w), 0, sub)
    decreases sub, 2
  {
    hide Encodes, EncodesSub, DeltaBytes, Extends, NodeBefore, ListBefore, TargetsBefore;
    match sub
    case Split(key, less, ge) =>
      var w1 := SubBefore(less, w);
      var w2 := SubBefore(ge, w1);
      SubIsEncoded(less, w, lo, key);
      SubIsEncoded(ge, w1, key, hi);
      SubExtends(ge, w1);
      SubEncodedFarther(w2, w1, less);
      SplitBefore(key, less, |w1|, ge, w2);
    case _ =>
      ExtendsSame(TargetsBefore(sub, w));
      ListIsEncoded(sub, w, TargetsBefore(sub, w), lo, hi);
  }

  lemma {:induction false} ListIsEncoded(sub: Sub, w: seq<Byte>, top: seq<Byte>, lo: int, hi: int)
    requires sub.Ordered(lo, hi) && SubLaid(sub) && SubStorable(sub) && !sub.Split?
    requires sub.Size() <= MAX_BRANCH_LINEAR_SUB_NODE_LENGTH
    requires Extends(top, TargetsBefore(sub, w)) && |ListBefore(sub, w, top)| < 0x8000_0000
    ensures EncodesSub(ListBefore(sub, w, top), 0, sub)
    decreases sub, 1
  {
    hide Encodes, EncodesSub, ValueBytes, Extends, NodeBefore;
    match sub
    case FinalEdge(key, value, rest) =>
      ListIsEncoded(rest, w, top, key + 1, hi);
      FinalEdgeBefore(key, value, rest, ListBefore(rest, w, top));
    case JumpEdge(key, target, rest) =>
      var list := ListBefore(rest, w, top);
      var targets := TargetsBefore(sub, w);
      NodeExtends(target, TargetsBefore(rest, w));
      ExtendsTwice(top, targets, TargetsBefore(rest, w));
      ListIsEncoded(rest, w, top, key + 1, hi);
      ListExtends(rest, w, top);
      ExtendsTwice(list, top, targets);
      NodeIsEncoded(target, TargetsBefore(rest, w));
      EncodedFarther(list, targets, target);
      JumpEdgeBefore(key, target, |targets|, rest, list);
    case LastEdge(key, next) =>
      NodeIsEncoded(next, top);
      LastEdgeBefore(key, next, NodeBefore(next, top));
  }

  // ----- which tries have bytes, and how many tries bytes encode

  lemma {:induction false} BigEndianBound(bytes: seq<Byte>, pos: nat, n: nat)
    requires n <= 4 && pos + n <= |bytes|
    ensures BigEndian(bytes, pos, n) < Power256(n)
  {
    if n > 0 {
      BigEndianBound(bytes, pos, n - 1);
    }
  }

  function Power256(n: nat): nat {
    if n == 0 then 1 else 0x100 * Power256(n - 1)
  }

  lemma ReadValueFits(bytes: seq<Byte>, pos: nat, lead: nat)
    requires pos + ValueTail(lead * 2) <= |bytes| && MIN_ONE_BYTE_VALUE_LEAD <= lead <= FIVE_BYTE_VALUE_LEAD
    ensures IsInt32(ReadValue(bytes, pos, lead))
  {
    hide BigEndian;
    var n := ValueTail(lead * 2);
    assert Power256(1) == 0x100 && Power256(2) == 0x1_0000 && Power256(3) == 0x100_0000 && Power256(4) == 0x1_0000_0000;
    BigEndianBound(bytes, pos, n);
  }

  lemma {:induction false} EncodedIsStorable(bytes: seq<Byte>, pos: nat, node: Node)
    requires Encodes(bytes, pos, node)
    ensures Storable(node)
    decreases node
  {
    hide ReadValue, EncodesSub;
    match node
    case Final(_) => ReadValueFits(bytes, pos + 1, bytes[pos] / 2);
    case Value(_, next) =>
      ReadValueFits(bytes, pos + 1, bytes[pos] / 2);
      EncodedIsStorable(bytes, SkipValue(pos + 1, bytes[pos]), next);
    case Linear(match_, next) => EncodedIsStorable(bytes, pos + 1 + |match_|, next);
    case Branch(sub) => SubEncodedIsStorable(bytes, if bytes[pos] == 0 then pos + 2 else pos + 1, sub);
  }

  lemma {:induction false} SubEncodedIsStorable(bytes: seq<Byte>, pos: nat, sub: Sub)
    requires EncodesSub(bytes, pos, sub)
    ensures SubStorable(sub)
    decreases sub
  {
    hide ReadValue, ReadDelta, Encodes;
    match sub
    case Split(_, less, ge) =>
      assert EncodesSub(bytes, JumpByDelta(bytes, pos + 1), less);
      SubEncodedIsStorable(bytes, JumpByDelta(bytes, pos + 1), less);
      SubEncodedIsStorable(bytes, SkipDelta(bytes, pos + 1), ge);
    case FinalEdge(_, _, rest) =>
      ReadValueFits(bytes, pos + 2, bytes[pos + 1] / 2);
      SubEncodedIsStorable(bytes, SkipValue(pos + 2, bytes[pos + 1]), rest);
    case JumpEdge(_, target, rest) =>
      var end := SkipValue(pos + 2, bytes[pos + 1]);
      EncodedAt(bytes, end + ReadValue(bytes, pos + 2, bytes[pos + 1] / 2), target);
      EncodedIsStorable(bytes, end + ReadValue(bytes, pos + 2, bytes[pos + 1] / 2), target);
      SubEncodedIsStorable(bytes, end, rest);
    case LastEdge(_, next) => EncodedIsStorable(bytes, pos + 1, next);
  }

  /**
   Serializing and reading: exactly the tries of 32-bit values whose branches are halved as the
   reader expects have bytes that encode them, and the serialized form is such bytes.
   */
  lemma SerializeRoundTrip(node: Node)
    requires node.WellFormed() && |Serialize(node)| < 0x8000_0000
    ensures Encodes(Serialize(node), 0, node) <==> Laid(node) && Storable(node)
    ensures (exists bytes: seq<Byte>, pos: nat :: Encodes(bytes, pos, node)) <==> Laid(node) && Storable(node)
  {
    hide Encodes, Laid, Storable, Node.WellFormed, NodeBefore;
    if Laid(node) && Storable(node) {
      NodeIsEncoded(node, []);
    }
    forall bytes: seq<Byte>, pos: nat | Encodes(bytes, pos, node)
      ensures Laid(node) && Storable(node)
    {
      EncodedIsLaid(bytes, pos, node);
      EncodedIsStorable(bytes, pos, node);
    }
  }

  /** Bytes at a position encode one trie only. */
  lemma {:induction false} EncodesOnce(bytes: seq<Byte>, pos: nat, a: Node, b: Node)
    requires Encodes(bytes, pos, a) && Encodes(bytes, pos, b)
    ensures a == b
    decreases a
  {
    hide ReadValue, EncodesSub;
    match a
    case Final(_) =>
    case Value(_, next) => EncodesOnce(bytes, SkipValue(pos + 1, bytes[pos]), next, b.next);
    case Linear(match_, next) =>
      assert |b.bytes| == |match_| && bytes[pos + 1..][..|match_|] == match_;
      EncodesOnce(bytes, pos + 1 + |match_|, next, b.next);
    case Branch(sub) => SubEncodesOnce(bytes, if bytes[pos] == 0 then pos + 2 else pos + 1, sub, b.sub);
  }

  lemma {:induction false} SubEncodesOnce(bytes: seq<Byte>, pos: nat, a: Sub, b: Sub)
    requires EncodesSub(bytes, pos, a) && EncodesSub(bytes, pos, b) && a.Size() == b.Size()
    ensures a == b
    decreases a
  {
    hide ReadValue, ReadDelta, Encodes;
    match a
    case Split(_, less, ge) =>
      assert EncodesSub(bytes, JumpByDelta(bytes, pos + 1), less);
      SubEncodesOnce(bytes, JumpByDelta(bytes, pos + 1), less, b.less);
      SubEncodesOnce(bytes, SkipDelta(bytes, pos + 1), ge, b.ge);
    case FinalEdge(_, _, rest) => SubEncodesOnce(bytes, SkipValue(pos + 2, bytes[pos + 1]), rest, b.rest);
    case JumpEdge(_, target, rest) =>
      var end := SkipValue(pos + 2, bytes[pos + 1]);
      EncodedAt(bytes, end + ReadValue(bytes, pos + 2, bytes[pos + 1] / 2), target);
      EncodesOnce(bytes, end + ReadValue(bytes, pos + 2, bytes[pos + 1] / 2), target, b.target);
      SubEncodesOnce(bytes, end, rest, b.rest);
    case LastEdge(_, next) => EncodesOnce(bytes, pos + 1, next, b.next);
  }
}
