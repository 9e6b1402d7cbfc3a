/**
 The serialized form of tries in plain numbers, which tries that were serialized elsewhere
 have, too.
 */
module TrieFormat {
  import opened Common
  import opened TrieNodes
  import opened TrieBytes
  import opened TrieWriting

  // ----- reading

  /** Two, three or four bytes as a number, the first one counting most. */
  function Pair(b: seq<Byte>, i: nat): int
    requires i + 2 <= |b|
  {
    0x100 * b[i] as int + b[i + 1]
  }

  function Triple(b: seq<Byte>, i: nat): int
    requires i + 3 <= |b|
  {
    0x1_0000 * b[i] as int + Pair(b, i + 1)
  }

  function Quad(b: seq<Byte>, i: nat): int
    requires i + 4 <= |b|
  {
    0x100_0000 * b[i] as int + Triple(b, i + 1)
  }

  /** What a value is read as, by its lead byte; an odd one makes the value final. */
  lemma ValueIsRead(bytes: seq<Byte>, pos: nat, value: int, isFinal: bool, end: nat)
    requires pos < |bytes|
    ensures var lead: int, f := bytes[pos], if isFinal then 1 else 0;
            ValueAt(bytes, pos, value, isFinal, end) <==>
            0x20 <= lead && lead % 2 == f && end <= |bytes| &&
            if lead < 0xa2 then end == pos + 1 && 2 * value == lead - f - 0x20
            else if lead < 0xd8 then end == pos + 2 && value == (lead - f - 0xa2) / 2 * 0x100 + bytes[pos + 1]
            else if lead < 0xfc then end == pos + 3 && value == (lead - f - 0xd8) / 2 * 0x1_0000 + Pair(bytes, pos + 1)
            else if lead < 0xfe then end == pos + 4 && value == Triple(bytes, pos + 1)
            else
              end == pos + 5 &&
              value == Quad(bytes, pos + 1) - (if bytes[pos + 1] < 0x80 then 0 else 0x1_0000_0000)
  {
    var lead := bytes[pos];
    if 0x20 <= lead && pos + 1 + ValueTail(lead) <= |bytes| {
      ReadIs(bytes, pos + 1, lead / 2);
    }
    hide ReadValue;
  }

  lemma ReadIs(bytes: seq<Byte>, pos: nat, leadByte: nat)
    requires 0x10 <= leadByte <= 0x7f && pos + ValueTail(leadByte * 2) <= |bytes|
    ensures ReadValue(bytes, pos, leadByte) ==
            if leadByte < 0x51 then leadByte - 0x10
            else if leadByte < 0x6c then (leadByte - 0x51) * 0x100 + bytes[pos]
            else if leadByte < 0x7e then (leadByte - 0x6c) * 0x1_0000 + Pair(bytes, pos)
            else if leadByte < 0x7f then Triple(bytes, pos)
            else Quad(bytes, pos) - (if bytes[pos] < 0x80 then 0 else 0x1_0000_0000)
  {
    BigEndianIs(bytes, pos, ValueTail(leadByte * 2));
    hide BigEndian;
  }

  /** What a delta is read as, and where it leads. */
  lemma DeltaIsRead(bytes: seq<Byte>, pos: nat, target: int)
    requires pos < |bytes|
    ensures var lead: int := bytes[pos];
            DeltaAt(bytes, pos) && JumpByDelta(bytes, pos) == target <==>
            if lead < 0xc0 then target == pos + 1 + lead
            else if lead < 0xf0 then pos + 2 <= |bytes| && target == pos + 2 + (lead - 0xc0) * 0x100 + bytes[pos + 1]
            else if lead < 0xfe then
              pos + 3 <= |bytes| && target == pos + 3 + (lead - 0xf0) * 0x1_0000 + Pair(bytes, pos + 1)
            else if lead == 0xfe then pos + 4 <= |bytes| && target == pos + 4 + Triple(bytes, pos + 1)
            else
              pos + 5 <= |bytes| &&
              target == pos + 5 + Quad(bytes, pos + 1) - (if bytes[pos + 1] < 0x80 then 0 else 0x1_0000_0000)
  {
    var n := DeltaTail(bytes[pos]);
    if DeltaAt(bytes, pos) {
      BigEndianIs(bytes, pos + 1, n);
    }
    hide BigEndian;
  }

  /** What kind of node begins with a lead byte, and how many edges or matched bytes it has. */
  lemma NodeIsRead(bytes: seq<Byte>, pos: nat, node: Node)
    requires Encodes(bytes, pos, node)
    ensures pos < |bytes|
    ensures node.Branch? <==> bytes[pos] < 0x10
    ensures node.Linear? <==> 0x10 <= bytes[pos] < 0x20
    ensures node.Value? <==> 0x20 <= bytes[pos] && bytes[pos] % 2 == 0
    ensures node.Final? <==> 0x20 <= bytes[pos] && bytes[pos] % 2 == 1
    ensures node.Linear? ==>
              |node.bytes| == bytes[pos] - 0xf && pos + 1 + |node.bytes| <= |bytes| &&
              node.bytes == bytes[pos + 1..pos + 1 + |node.bytes|]
    ensures node.Branch? && 0 < bytes[pos] ==> node.sub.Size() == bytes[pos] as int + 1
    ensures node.Branch? && 0 == bytes[pos] ==> pos + 1 < |bytes| && node.sub.Size() == bytes[pos + 1] as int + 1
  {
    LeadByte(bytes, pos, node);
    hide ValueAt, EncodesSub;
  }

  // ----- writing

  /** How many bytes a value has that is written. */
  function ValueLength(i: int): nat {
    if 0 <= i <= 0x40 then 1
    else if 0 <= i <= 0x1aff then 2
    else if 0 <= i <= 0x11_ffff then 3
    else if 0 <= i <= 0xff_ffff then 4
    else 5
  }

  function DeltaLength(i: nat): nat {
    if i <= 0xbf then 1
    else if i <= 0x2fff then 2
    else if i <= 0xd_ffff then 3
    else if i <= 0xff_ffff then 4
    else 5
  }

  /** A value is written with this length, and no bytes that are read as the same value are fewer. */
  lemma ValueIsShortest(i: int, isFinal: bool, bytes: seq<Byte>, end: nat)
    requires IsInt32(i)
    ensures |ValueBytes(i, isFinal)| == ValueLength(i)
    ensures ValueAt(bytes, 0, i, isFinal, end) ==> ValueLength(i) <= end
  {
    hide ValueAt, ByteOf;
    if bytes != [] {
      ValueIsRead(bytes, 0, i, isFinal, end);
    } else {
      NothingIsNoValue(bytes, i, isFinal, end);
    }
  }

  lemma NothingIsNoValue(bytes: seq<Byte>, i: int, isFinal: bool, end: nat)
    requires bytes == []
    ensures !ValueAt(bytes, 0, i, isFinal, end)
  {
  }

  /** The same for a delta; it is counted from behind its bytes. */
  lemma DeltaIsShortest(i: nat, bytes: seq<Byte>)
    requires i < 0x8000_0000
    ensures |DeltaBytes(i)| == DeltaLength(i)
    ensures DeltaAt(bytes, 0) && JumpByDelta(bytes, 0) == SkipDelta(bytes, 0) + i ==>
              DeltaLength(i) <= SkipDelta(bytes, 0)
  {
    hide ByteOf, ReadDelta;
    if DeltaAt(bytes, 0) && JumpByDelta(bytes, 0) == SkipDelta(bytes, 0) + i {
      DeltaIsRead(bytes, 0, JumpByDelta(bytes, 0));
    }
  }

  /** The lead byte of a value rises with it, and the one of a negative value is that of the largest ones. */
  lemma LeadsRise(i: int, j: int, isFinal: bool)
    requires IsInt32(i) && IsInt32(j)
    ensures 0 <= i <= j ==> ValueBytes(i, isFinal)[0] <= ValueBytes(j, isFinal)[0]
    ensures i < 0 ==> ValueBytes(i, isFinal)[0] == ValueBytes(0x7fff_ffff, isFinal)[0]
  {
    hide ByteOf;
    if 0 <= i <= j {
      LeadOf(i, isFinal);
      LeadOf(j, isFinal);
      hide ValueBytes;
    }
  }

  lemma LeadOf(i: nat, isFinal: bool)
    ensures var lead: int, f := ValueBytes(i, isFinal)[0], if isFinal then 1 else 0;
            lead == if i <= 0x40 then 0x20 + 2 * i + f
                    else if i <= 0x1aff then 0xa2 + 2 * (i / 0x100) + f
                    else if i <= 0x11_ffff then 0xd8 + 2 * (i / 0x1_0000) + f
                    else if i <= 0xff_ffff then 0xfc + f
                    else 0xfe + f
  {
    hide ByteOf;
  }

  lemma DeltaLeadsRise(i: nat, j: nat)
    requires i <= j < 0x8000_0000
    ensures DeltaBytes(i)[0] <= DeltaBytes(j)[0]
  {
    hide ByteOf;
    if j <= 0xd_ffff {
      assert i / 0x1_0000 <= j / 0x1_0000 && i / 0x100 <= j / 0x100;
    }
  }
}
