/** The byte level of building a trie, `icu/common/bytestriebuilder.cpp`: what is written, from its end to its start. */
module TrieBuilders {
  import opened Common
  import opened TrieNodes
  import opened TrieBytes
  import opened TrieWriting

  /** The bytes of a trie under construction, written backwards into a buffer that grows. */
  class BytesTrieBuilder {
    var bytes: array<Byte>
    var bytesLength: nat

    ghost predicate Valid()
      reads this
    {
      0 < bytes.Length && bytesLength <= bytes.Length
    }

    /** What is written so far. */
    ghost function Written(): seq<Byte>
      reads this, bytes
      requires Valid()
    {
      bytes[bytes.Length - bytesLength..]
    }

    constructor (capacity: nat)
      requires 0 < capacity
      ensures Valid() && fresh(bytes) && Written() == []
    {
      bytes := new Byte[capacity];
      bytesLength := 0;
    }

    /** Makes room; keeps what is written, at the end. */
    method EnsureCapacity(length: nat)
      requires Valid()
      modifies `bytes
      ensures Valid() && length <= bytes.Length && Written() == old(Written())
      ensures if length <= old(bytes.Length) then bytes == old(bytes) else fresh(bytes)
    {
      if length > bytes.Length {
        var newCapacity := bytes.Length * 2;
        while newCapacity <= length
          invariant bytes.Length < newCapacity
          decreases length - newCapacity
        {
          newCapacity := newCapacity * 2;
        }
        var newBytes := new Byte[newCapacity];
        var old_ := bytes;
        forall k | 0 <= k < bytesLength {
          newBytes[newCapacity - bytesLength + k] := old_[old_.Length - bytesLength + k];
        }
        assert newBytes[newCapacity - bytesLength..] == old_[old_.Length - bytesLength..];
        bytes := newBytes;
      }
    }

    /** Writes bytes before what is written already. */
    method WriteBytes(b: seq<Byte>) returns (offset: nat)
      requires Valid()
      modifies this, bytes
      ensures Valid() && (bytes == old(bytes) || fresh(bytes))
      ensures Written() == b + old(Written()) && offset == |Written()|
    {
      var newLength := bytesLength + |b|;
      EnsureCapacity(newLength);
      bytesLength := newLength;
      forall k | 0 <= k < |b| {
        bytes[bytes.Length - bytesLength + k] := b[k];
      }
      assert bytes[bytes.Length - bytesLength..bytes.Length - bytesLength + |b|] == b;
      assert bytes[bytes.Length - bytesLength + |b|..] == old(Written());
      assert Written() == b + old(Written());
      offset := bytesLength;
    }

    /** Writes one byte before what is written already. */
    method Write(b: Byte) returns (offset: nat)
      requires Valid()
      modifies this, bytes
      ensures Valid() && (bytes == old(bytes) || fresh(bytes))
      ensures Written() == [b] + old(Written()) && offset == |Written()|
    {
      offset := WriteBytes([b]);
    }

    /** Writes a value, final or not. Any 32-bit integer makes a final-value node or, before a node, a value node. */
    method WriteValueAndFinal(i: int, isFinal: bool) returns (offset: nat)
      requires Valid()
      modifies this, bytes
      ensures Valid() && (bytes == old(bytes) || fresh(bytes))
      ensures Written() == ValueBytes(i, isFinal) + old(Written()) && offset == |Written()|
      ensures IsInt32(i) && isFinal ==> Encodes(Written(), 0, Final(i))
      ensures IsInt32(i) && !isFinal ==>
                forall next :: Encodes(old(Written()), 0, next) ==> Encodes(Written(), 0, Value(i, next))
    {
      hide Encodes;
      ghost var before := Written();
      if 0 <= i <= MAX_ONE_BYTE_VALUE {
        offset := Write((MIN_ONE_BYTE_VALUE_LEAD + i) * 2 + if isFinal then 1 else 0);
      } else {
        var intBytes := new Byte[5];
        var length := EncodeValue(i, isFinal, intBytes);
        offset := WriteBytes(intBytes[..length]);
      }
      if IsInt32(i) {
        ValueNodes(i, isFinal, before);
      }
    }

    /** The bytes of a value that does not fit into its lead byte. */
    method EncodeValue(i: int, isFinal: bool, intBytes: array<Byte>) returns (length: nat)
      requires !(0 <= i <= MAX_ONE_BYTE_VALUE) && intBytes.Length == 5
      modifies intBytes
      ensures length <= 5 && intBytes[..length] == ValueBytes(i, isFinal)
    {
      length := 1;
      if i < 0 || i > 0xff_ffff {
        intBytes[0] := FIVE_BYTE_VALUE_LEAD;
        intBytes[1], intBytes[2] := ByteOf(i, 0x100_0000), ByteOf(i, 0x1_0000);
        intBytes[3], intBytes[4] := ByteOf(i, 0x100), ByteOf(i, 1);
        length := 5;
      } else {
        if i <= MAX_TWO_BYTE_VALUE {
          intBytes[0] := MIN_TWO_BYTE_VALUE_LEAD + i / 0x100;
        } else {
          if i <= MAX_THREE_BYTE_VALUE {
            intBytes[0] := MIN_THREE_BYTE_VALUE_LEAD + i / 0x1_0000;
          } else {
            intBytes[0] := FOUR_BYTE_VALUE_LEAD;
            intBytes[1] := ByteOf(i, 0x1_0000);
            length := 2;
          }
          intBytes[length] := ByteOf(i, 0x100);
          length := length + 1;
        }
        intBytes[length] := ByteOf(i, 1);
        length := length + 1;
      }
      var lead: int := intBytes[0];
      intBytes[0] := lead * 2 + if isFinal then 1 else 0;
    }

    /**
     Writes a jump to the place that is `jumpTarget` bytes before the end; it leads there
     whatever is written before it.
     */
    method WriteDeltaTo(jumpTarget: nat) returns (offset: nat)
      requires Valid() && jumpTarget <= bytesLength
      modifies this, bytes
      ensures Valid() && (bytes == old(bytes) || fresh(bytes))
      ensures Written() == DeltaBytes(|old(Written())| - jumpTarget) + old(Written()) && offset == |Written()|
      ensures |old(Written())| < 0x8000_0000 ==> forall more :: LandsAt(more + Written(), |more|, jumpTarget)
    {
      hide LandsAt;
      ghost var before := Written();
      var i := bytesLength - jumpTarget;
      if i <= MAX_ONE_BYTE_DELTA {
        offset := Write(i);
      } else {
        var intBytes := new Byte[5];
        var length := InternalEncodeDelta(i, intBytes);
        offset := WriteBytes(intBytes[..length]);
      }
      forall more: seq<Byte> | |before| < 0x8000_0000
        ensures LandsAt(more + Written(), |more|, jumpTarget)
      {
        DeltaLands(more, before, jumpTarget);
      }
    }

    method InternalEncodeDelta(i: nat, intBytes: array<Byte>) returns (length: nat)
      requires intBytes.Length == 5
      modifies intBytes
      ensures length <= 5 && intBytes[..length] == DeltaBytes(i)
    {
      if i <= MAX_ONE_BYTE_DELTA {
        intBytes[0] := i;
        return 1;
      }
      length := 1;
      if i <= MAX_TWO_BYTE_DELTA {
        intBytes[0] := MIN_TWO_BYTE_DELTA_LEAD + i / 0x100;
      } else {
        if i <= MAX_THREE_BYTE_DELTA {
          intBytes[0] := MIN_THREE_BYTE_DELTA_LEAD + i / 0x1_0000;
        } else {
          if i <= 0xff_ffff {
            intBytes[0] := FOUR_BYTE_DELTA_LEAD;
          } else {
            intBytes[0] := FIVE_BYTE_DELTA_LEAD;
            intBytes[1] := ByteOf(i, 0x100_0000);
            length := 2;
          }
          intBytes[length] := ByteOf(i, 0x1_0000);
          length := length + 1;
        }
        intBytes[length] := ByteOf(i, 0x100);
        length := length + 1;
      }
      intBytes[length] := ByteOf(i, 1);
      length := length + 1;
    }

    /** Writes a linear-match node before the node that it leads to. */
    method WriteLinearMatch(s: seq<Byte>, ghost next: Node) returns (offset: nat)
      requires Valid() && 1 <= |s| <= MAX_LINEAR_MATCH_LENGTH && Encodes(Written(), 0, next)
      modifies this, bytes
      ensures Valid() && (bytes == old(bytes) || fresh(bytes))
      ensures Encodes(Written(), 0, Linear(s, next)) && offset == |Written()|
    {
      hide Encodes;
      ghost var before := Written();
      offset := WriteBytes(s);
      offset := Write(MIN_LINEAR_MATCH + |s| - 1);
      LinearNode(s, next, before);
    }
  }
}
