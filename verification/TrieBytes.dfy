/**
 The serialized form of tries: compact integers, and what it means that bytes at a position
 encode a node. Constants and layout are those of `icu/common/unicode/bytestrie.h`.
 */
module TrieBytes {
  import opened Common
  import opened TrieNodes

  const MAX_BRANCH_LINEAR_SUB_NODE_LENGTH := 5
  const MIN_LINEAR_MATCH := 0x10
  const MIN_VALUE_LEAD := MIN_LINEAR_MATCH + MAX_LINEAR_MATCH_LENGTH  // 0x20

  // Compact values: after shifting the lead byte right by 1.
  const MIN_ONE_BYTE_VALUE_LEAD := MIN_VALUE_LEAD / 2  // 0x10
  const MAX_ONE_BYTE_VALUE := 0x40
  const MIN_TWO_BYTE_VALUE_LEAD := MIN_ONE_BYTE_VALUE_LEAD + MAX_ONE_BYTE_VALUE + 1  // 0x51
  const MAX_TWO_BYTE_VALUE := 0x1aff
  const MIN_THREE_BYTE_VALUE_LEAD := MIN_TWO_BYTE_VALUE_LEAD + MAX_TWO_BYTE_VALUE / 0x100 + 1  // 0x6c
  const FOUR_BYTE_VALUE_LEAD := 0x7e
  const MAX_THREE_BYTE_VALUE := (FOUR_BYTE_VALUE_LEAD - MIN_THREE_BYTE_VALUE_LEAD) * 0x1_0000 - 1  // 0x11ffff
  const FIVE_BYTE_VALUE_LEAD := 0x7f

  const MAX_ONE_BYTE_DELTA := 0xbf
  const MIN_TWO_BYTE_DELTA_LEAD := MAX_ONE_BYTE_DELTA + 1  // 0xc0
  const MIN_THREE_BYTE_DELTA_LEAD := 0xf0
  const FOUR_BYTE_DELTA_LEAD := 0xfe
  const FIVE_BYTE_DELTA_LEAD := 0xff
  const MAX_TWO_BYTE_DELTA := (MIN_THREE_BYTE_DELTA_LEAD - MIN_TWO_BYTE_DELTA_LEAD) * 0x100 - 1  // 0x2fff
  const MAX_THREE_BYTE_DELTA := (FOUR_BYTE_DELTA_LEAD - MIN_THREE_BYTE_DELTA_LEAD) * 0x1_0000 - 1  // 0xdffff

  /** A 32-bit pattern as a signed number. */
  function Signed(n: nat): int {
    if n < 0x8000_0000 then n else n - 0x1_0000_0000
  }

  /** The bytes from `pos` on as one big-endian number. */
  function BigEndian(bytes: seq<Byte>, pos: nat, n: nat): nat
    requires pos + n <= |bytes|
  {
    if n == 0 then 0 else BigEndian(bytes, pos, n - 1) * 0x100 + bytes[pos + n - 1]
  }

  /** How many bytes follow the lead byte of a value. */
  function ValueTail(lead: nat): nat {
    if lead < MIN_TWO_BYTE_VALUE_LEAD * 2 then 0
    else if lead < MIN_THREE_BYTE_VALUE_LEAD * 2 then 1
    else if lead < FOUR_BYTE_VALUE_LEAD * 2 then 2
    else 3 + lead / 2 % 2
  }

  /** Skips the rest of a value whose lead byte has been read. */
  function SkipValue(pos: nat, lead: nat): nat {
    pos + ValueTail(lead)
  }

  /** The integer whose lead byte, without its final flag, is `leadByte`, and whose other bytes follow at `pos`. */
  function ReadValue(bytes: seq<Byte>, pos: nat, leadByte: nat): int
    requires pos + ValueTail(leadByte * 2) <= |bytes|
    requires MIN_ONE_BYTE_VALUE_LEAD <= leadByte <= FIVE_BYTE_VALUE_LEAD
  {
    if leadByte < MIN_TWO_BYTE_VALUE_LEAD then leadByte - MIN_ONE_BYTE_VALUE_LEAD
    else if leadByte < MIN_THREE_BYTE_VALUE_LEAD then
      (leadByte - MIN_TWO_BYTE_VALUE_LEAD) * 0x100 + BigEndian(bytes, pos, 1)
    else if leadByte < FOUR_BYTE_VALUE_LEAD then
      (leadByte - MIN_THREE_BYTE_VALUE_LEAD) * 0x1_0000 + BigEndian(bytes, pos, 2)
    else if leadByte == FOUR_BYTE_VALUE_LEAD then BigEndian(bytes, pos, 3)
    else Signed(BigEndian(bytes, pos, 4))
  }

  /** How many bytes follow the lead byte of a delta. */
  function DeltaTail(lead: Byte): nat {
    if lead < MIN_TWO_BYTE_DELTA_LEAD then 0
    else if lead < MIN_THREE_BYTE_DELTA_LEAD then 1
    else if lead < FOUR_BYTE_DELTA_LEAD then 2
    else 3 + lead % 2
  }

  function ReadDelta(bytes: seq<Byte>, pos: nat): int
    requires pos < |bytes| && pos + 1 + DeltaTail(bytes[pos]) <= |bytes|
  {
    var lead: int := bytes[pos];
    if lead < MIN_TWO_BYTE_DELTA_LEAD then lead
    else if lead < MIN_THREE_BYTE_DELTA_LEAD then
      (lead - MIN_TWO_BYTE_DELTA_LEAD) * 0x100 + BigEndian(bytes, pos + 1, 1)
    else if lead < FOUR_BYTE_DELTA_LEAD then
      (lead - MIN_THREE_BYTE_DELTA_LEAD) * 0x1_0000 + BigEndian(bytes, pos + 1, 2)
    else if lead == FOUR_BYTE_DELTA_LEAD then BigEndian(bytes, pos + 1, 3)
    else Signed(BigEndian(bytes, pos + 1, 4))
  }

  function SkipDelta(bytes: seq<Byte>, pos: nat): nat
    requires pos < |bytes|
  {
    pos + 1 + DeltaTail(bytes[pos])
  }

  /** A delta can be read at `pos`. */
  predicate DeltaAt(bytes: seq<Byte>, pos: nat) {
    pos < |bytes| && pos + 1 + DeltaTail(bytes[pos]) <= |bytes|
  }

  /** Where the delta at `pos` leads: its distance counts from behind its own bytes. */
  function JumpByDelta(bytes: seq<Byte>, pos: nat): int
    requires DeltaAt(bytes, pos)
  {
    SkipDelta(bytes, pos) + ReadDelta(bytes, pos)
  }

  /** A value, final or not, is encoded at `pos` and ends before `end`. */
  predicate ValueAt(bytes: seq<Byte>, pos: nat, value: int, isFinal: bool, end: nat) {
    pos < |bytes| && MIN_VALUE_LEAD <= bytes[pos] && (bytes[pos] % 2 == 1) == isFinal &&
    end == SkipValue(pos + 1, bytes[pos]) <= |bytes| &&
    ReadValue(bytes, pos + 1, bytes[pos] / 2) == value
  }

  /** The bytes at `pos` encode a node. */
  ghost predicate Encodes(bytes: seq<Byte>, pos: int, node: Node)
    decreases node
  {
    0 <= pos < |bytes| &&
    match node
    case Final(value) => ValueAt(bytes, pos, value, true, SkipValue(pos + 1, bytes[pos]))
    case Value(value, next) =>
      var end := SkipValue(pos + 1, bytes[pos]);
      ValueAt(bytes, pos, value, false, end) && Encodes(bytes, end, next)
    case Linear(match_, next) =>
      1 <= |match_| <= MAX_LINEAR_MATCH_LENGTH && bytes[pos] == MIN_LINEAR_MATCH + |match_| - 1 &&
      match_ <= bytes[pos + 1..] && Encodes(bytes, pos + 1 + |match_|, next)
    case Branch(sub) =>
      if bytes[pos] == 0 then pos + 1 < |bytes| && bytes[pos + 1] == sub.Size() - 1 && EncodesSub(bytes, pos + 2, sub)
      else bytes[pos] < MIN_LINEAR_MATCH && bytes[pos] == sub.Size() - 1 && EncodesSub(bytes, pos + 1, sub)
  }

  /** The bytes at `pos` encode the edges of a branch node. */
  ghost predicate EncodesSub(bytes: seq<Byte>, pos: int, sub: Sub)
    decreases sub
  {
    0 <= pos < |bytes| &&
    match sub
    case Split(key, less, ge) =>
      MAX_BRANCH_LINEAR_SUB_NODE_LENGTH < sub.Size() && bytes[pos] == key && DeltaAt(bytes, pos + 1) &&
      less.Size() == sub.Size() / 2 &&
      EncodesSub(bytes, JumpByDelta(bytes, pos + 1), less) && EncodesSub(bytes, SkipDelta(bytes, pos + 1), ge)
    case FinalEdge(key, value, rest) =>
      sub.Size() <= MAX_BRANCH_LINEAR_SUB_NODE_LENGTH && bytes[pos] == key && pos + 1 < |bytes| &&
      var end := SkipValue(pos + 2, bytes[pos + 1]);
      ValueAt(bytes, pos + 1, value, true, end) && EncodesSub(bytes, end, rest)
    case JumpEdge(key, target, rest) =>
      sub.Size() <= MAX_BRANCH_LINEAR_SUB_NODE_LENGTH && bytes[pos] == key && pos + 1 < |bytes| &&
      var end := SkipValue(pos + 2, bytes[pos + 1]);
      end <= |bytes| && MIN_VALUE_LEAD <= bytes[pos + 1] && bytes[pos + 1] % 2 == 0 &&
      Encodes(bytes, end + ReadValue(bytes, pos + 2, bytes[pos + 1] / 2), target) && EncodesSub(bytes, end, rest)
    case LastEdge(key, next) =>
      bytes[pos] == key && Encodes(bytes, pos + 1, next)
  }

  /** The lead byte of an encoded node tells its kind. */
  lemma LeadByte(bytes: seq<Byte>, pos: nat, node: Node)
    requires Encodes(bytes, pos, node)
    ensures match node
            case Final(_) => MIN_VALUE_LEAD <= bytes[pos] && bytes[pos] % 2 == 1
            case Value(_, _) => MIN_VALUE_LEAD <= bytes[pos] && bytes[pos] % 2 == 0
            case Linear(_, _) => MIN_LINEAR_MATCH <= bytes[pos] < MIN_VALUE_LEAD
            case Branch(_) => bytes[pos] < MIN_LINEAR_MATCH
  {
  }

  lemma EncodedAt(bytes: seq<Byte>, pos: int, node: Node)
    requires Encodes(bytes, pos, node)
    ensures 0 <= pos < |bytes|
  {
  }

  /** More edges than a list has begin with a comparison byte and a jump. */
  lemma SplitEncoded(bytes: seq<Byte>, pos: nat, sub: Sub)
    requires EncodesSub(bytes, pos, sub) && MAX_BRANCH_LINEAR_SUB_NODE_LENGTH < sub.Size()
    ensures sub.Split? && pos < |bytes| && bytes[pos] == sub.key && DeltaAt(bytes, pos + 1)
    ensures sub.less.Size() == sub.Size() / 2 && sub.ge.Size() == sub.Size() - sub.Size() / 2
    ensures 0 <= JumpByDelta(bytes, pos + 1) && EncodesSub(bytes, JumpByDelta(bytes, pos + 1), sub.less)
    ensures EncodesSub(bytes, SkipDelta(bytes, pos + 1), sub.ge)
  {
    hide ReadDelta, Encodes;
    assert EncodesSub(bytes, JumpByDelta(bytes, pos + 1), sub.less);
  }

  /** A list begins with the byte of an edge and its value, final or a jump. */
  lemma EdgeEncoded(bytes: seq<Byte>, pos: nat, sub: Sub)
    requires EncodesSub(bytes, pos, sub) && 2 <= sub.Size() <= MAX_BRANCH_LINEAR_SUB_NODE_LENGTH
    ensures (sub.FinalEdge? || sub.JumpEdge?) && pos + 1 < |bytes| && bytes[pos] == sub.key
    ensures SkipValue(pos + 2, bytes[pos + 1]) <= |bytes| && MIN_VALUE_LEAD <= bytes[pos + 1]
    ensures bytes[pos + 1] % 2 == 1 <==> sub.FinalEdge?
    ensures sub.FinalEdge? ==> ReadValue(bytes, pos + 2, bytes[pos + 1] / 2) == sub.value
    ensures sub.FinalEdge? ==> ValueAt(bytes, pos + 1, sub.value, true, SkipValue(pos + 2, bytes[pos + 1]))
    ensures sub.JumpEdge? ==>
              var target := SkipValue(pos + 2, bytes[pos + 1]) + ReadValue(bytes, pos + 2, bytes[pos + 1] / 2);
              0 <= target && Encodes(bytes, target, sub.target)
    ensures sub.rest.Size() == sub.Size() - 1 && EncodesSub(bytes, SkipValue(pos + 2, bytes[pos + 1]), sub.rest)
  {
    hide ReadValue;
    if sub.JumpEdge? {
      EncodedAt(bytes, SkipValue(pos + 2, bytes[pos + 1]) + ReadValue(bytes, pos + 2, bytes[pos + 1] / 2), sub.target);
    }
  }

  /** A list ends with the byte of an edge and the node it leads to. */
  lemma LastEdgeEncoded(bytes: seq<Byte>, pos: nat, sub: Sub)
    requires EncodesSub(bytes, pos, sub) && sub.Size() == 1
    ensures sub.LastEdge? && pos < |bytes| && bytes[pos] == sub.key && Encodes(bytes, pos + 1, sub.next)
  {
  }

  /** Branches are laid out as they are serialized: halved by a binary search, down to lists. */
  ghost predicate Laid(node: Node) {
    match node
    case Final(_) => true
    case Value(_, next) => Laid(next)
    case Linear(_, next) => Laid(next)
    case Branch(sub) => SubLaid(sub)
  }

  ghost predicate SubLaid(sub: Sub) {
    match sub
    case Split(_, less, ge) =>
      MAX_BRANCH_LINEAR_SUB_NODE_LENGTH < sub.Size() && less.Size() == sub.Size() / 2 && SubLaid(less) && SubLaid(ge)
    case FinalEdge(_, _, rest) => sub.Size() <= MAX_BRANCH_LINEAR_SUB_NODE_LENGTH && SubLaid(rest)
    case JumpEdge(_, target, rest) => sub.Size() <= MAX_BRANCH_LINEAR_SUB_NODE_LENGTH && Laid(target) && SubLaid(rest)
    case LastEdge(_, next) => Laid(next)
  }

  lemma {:induction false} EncodedIsLaid(bytes: seq<Byte>, pos: nat, node: Node)
    requires Encodes(bytes, pos, node)
    ensures Laid(node)
    decreases node
  {
    match node
    case Final(_) =>
    case Value(_, next) => EncodedIsLaid(bytes, SkipValue(pos + 1, bytes[pos]), next);
    case Linear(match_, next) => EncodedIsLaid(bytes, pos + 1 + |match_|, next);
    case Branch(sub) => SubEncodedIsLaid(bytes, if bytes[pos] == 0 then pos + 2 else pos + 1, sub);
  }

  lemma {:induction false} SubEncodedIsLaid(bytes: seq<Byte>, pos: nat, sub: Sub)
    requires EncodesSub(bytes, pos, sub)
    ensures SubLaid(sub)
    decreases sub
  {
    hide ReadValue, ReadDelta;
    match sub
    case Split(_, less, ge) =>
      assert EncodesSub(bytes, JumpByDelta(bytes, pos + 1), less);
      SubEncodedIsLaid(bytes, JumpByDelta(bytes, pos + 1), less);
      SubEncodedIsLaid(bytes, SkipDelta(bytes, pos + 1), ge);
    case FinalEdge(_, _, rest) => SubEncodedIsLaid(bytes, SkipValue(pos + 2, bytes[pos + 1]), rest);
    case JumpEdge(_, target, rest) =>
      var end := SkipValue(pos + 2, bytes[pos + 1]);
      EncodedAt(bytes, end + ReadValue(bytes, pos + 2, bytes[pos + 1] / 2), target);
      EncodedIsLaid(bytes, end + ReadValue(bytes, pos + 2, bytes[pos + 1] / 2), target);
      SubEncodedIsLaid(bytes, end, rest);
    case LastEdge(_, next) => EncodedIsLaid(bytes, pos + 1, next);
  }
}
