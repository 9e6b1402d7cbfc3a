/**
 Bit tables that speed up an inversion list, `icu/common/bmpset.cpp`. Every lookup through
 the tables agrees with membership in the inversion list.
 */
module BmpSets {
  import opened Common
  import opened InversionLists
  import opened BitTables
  import opened UnicodeText

  /** `c` clamped to a range. */
  ghost function Clamp(c: int, lo: int, hi: int): int
    requires lo <= hi
  {
    if c < lo then lo else if hi < c then hi else c
  }

  /** All, or none, of the 64 code points of a block are members. */
  ghost predicate AllOf(list: seq<int>, block: nat) {
    forall c: nat :: 64 * block <= c < 64 * block + 64 ==> In(list, c)
  }

  ghost predicate NoneOf(list: seq<int>, block: nat) {
    forall c: nat :: 64 * block <= c < 64 * block + 64 ==> !In(list, c)
  }

  /** What the two bits of a block say about it: all, none, or some of its code points are members. */
  ghost predicate Decides(list: seq<int>, block: nat, low: bool, high: bool) {
    if high then !AllOf(list, block) && !NoneOf(list, block)
    else if low then AllOf(list, block)
    else NoneOf(list, block)
  }

  class BMPSet {
    const list: seq<int>
    const latin1Contains: array<bool>
    const table7FF: array<Word>
    const bmpBlockBits: array<Word>
    const list4kStarts: array<nat>
    var containsFFFD: bool

    ghost predicate Shaped() {
      IsInversionList(list) &&
      latin1Contains.Length == 0x100 && table7FF.Length == 64 && bmpBlockBits.Length == 64 &&
      list4kStarts.Length == 18 &&
      table7FF != bmpBlockBits
    }

    /** The list indexes that bound the binary searches. */
    ghost predicate Starts()
      requires Shaped()
      reads list4kStarts
    {
      list4kStarts[0] == Rank(list, 0x800) && list4kStarts[17] == |list| - 1 &&
      forall i :: 1 <= i <= 16 ==> list4kStarts[i] == Rank(list, 0x1000 * i)
    }

    ghost predicate Latin1()
      requires Shaped()
      reads latin1Contains
    {
      forall c: nat :: c < 0x100 ==> latin1Contains[c] == In(list, c)
    }

    /** Code points below 0x80 are looked up in this table only for ill-formed text. */
    ghost predicate Table7FF()
      requires Shaped()
      reads this, table7FF
    {
      forall t: nat, l: nat :: t < 64 && l < 32 ==>
        Bit(table7FF[t], l) == if l < 2 then containsFFFD else In(list, 64 * l + t)
    }

    /** Blocks below 0x800 and surrogates get the value for ill-formed text. */
    ghost predicate BmpBlocks()
      requires Shaped()
      reads this, bmpBlockBits
    {
      forall t: nat, l: nat :: t < 64 && l < 16 ==>
        BlockValue(t, l, containsFFFD, Bit(bmpBlockBits[t], l), Bit(bmpBlockBits[t], l + 16))
    }

    ghost predicate BlockValue(t: nat, l: nat, illegal: bool, low: bool, high: bool) {
      if (l == 0 && t < 32) || (l == 0xd && 32 <= t) then !high && low == illegal
      else Decides(list, 64 * l + t, low, high)
    }

    ghost predicate Valid()
      reads this, latin1Contains, table7FF, bmpBlockBits, list4kStarts
    {
      Shaped() && Starts() && Latin1() && Table7FF() && BmpBlocks() && containsFFFD == In(list, 0xfffd)
    }

    /** The smallest index in `lo`..`hi` whose boundary is above `c`. */
    method FindCodePoint(c: int, lo: nat, hi: nat) returns (r: nat)
      requires IsInversionList(list) && 0 <= c < HIGH && lo <= hi < |list|
      ensures r == Clamp(Rank(list, c), lo, hi)
    {
      RankBounds(list, c);
      if c < list[lo] {
        return lo;
      }
      if lo >= hi || c >= list[hi - 1] {
        return hi;
      }
      var l, h := lo, hi;
      while true
        invariant lo <= l < h <= hi && list[l] <= c < list[h]
        decreases h - l
      {
        var i := (l + h) / 2;
        if i == l {
          break;
        } else if c < list[i] {
          h := i;
        } else {
          l := i;
        }
      }
      RankIs(list, c, h);
      return h;
    }

    method ContainsSlow(c: int, lo: nat, hi: nat) returns (r: bool)
      requires IsInversionList(list) && 0 <= c < HIGH && lo <= hi < |list|
      ensures lo <= Rank(list, c) <= hi ==> r == In(list, c)
    {
      var i := FindCodePoint(c, lo, hi);
      r := i % 2 == 1;
    }

    constructor (parentList: seq<int>)
      requires IsInversionList(parentList)
      ensures Valid() && list == parentList
      ensures fresh(latin1Contains) && fresh(table7FF) && fresh(bmpBlockBits) && fresh(list4kStarts)
    {
      list := parentList;
      latin1Contains := new bool[0x100](_ => false);
      table7FF := new Word[64](_ => 0);
      bmpBlockBits := new Word[64](_ => 0);
      list4kStarts := new nat[18];
      containsFFFD := false;
      new;
      hide In, Bit, IsInversionList, Decides;
      InitStarts();
      containsFFFD := ContainsSlow(0xfffd, list4kStarts[0xf], list4kStarts[0x10]);
      RankMonotone(list, 0xf000, 0xfffd, |list|);
      RankMonotone(list, 0xfffd, 0x1_0000, |list|);
      InitBits();
      OverrideIllegal();
    }

    method InitStarts()
      requires Shaped()
      modifies list4kStarts
      ensures Starts() && list4kStarts[0xf] <= list4kStarts[0x10] < |list|
    {
      var len := |list|;
      RankBounds(list, 0x800);
      list4kStarts[0] := FindCodePoint(0x800, 0, len - 1);
      var i := 1;
      while i <= 0x10
        invariant 1 <= i <= 0x11 && list4kStarts[0] == Rank(list, 0x800) < len
        invariant forall k :: 1 <= k < i ==> list4kStarts[k] == Rank(list, 0x1000 * k) < len
      {
        RankBounds(list, 0x1000 * i);
        RankMonotone(list, if i == 1 then 0x800 else 0x1000 * (i - 1), 0x1000 * i, len);
        list4kStarts[i] := FindCodePoint(0x1000 * i, list4kStarts[i - 1], len - 1);
        i := i + 1;
      }
      list4kStarts[0x11] := len - 1;
      RankMonotone(list, 0xf000, 0x1_0000, len);
    }

    /** Reads the range that begins at an even list index. */
    method FetchRange(listIndex: nat) returns (start: int, limit: int, next: nat)
      requires IsInversionList(list) && listIndex < |list| && listIndex % 2 == 0
      ensures IsRange(list, listIndex, start, limit) && 0 <= start <= limit <= HIGH
      ensures limit < HIGH ==> next == listIndex + 2 < |list|
      ensures start < HIGH ==> start < limit
    {
      next := listIndex + 1;
      start := list[listIndex];
      if next < |list| {
        limit := list[next];
        next := next + 1;
      } else {
        limit := HIGH;
      }
    }

    /** Where the range before an even list index ended. */
    ghost function PreviousLimit(i: nat): int
      requires i < |list|
    {
      if i == 0 then 0 else list[i - 1]
    }

    method InitLatin1()
      requires Shaped() && forall c :: 0 <= c < 0x100 ==> !latin1Contains[c]
      modifies latin1Contains
      ensures Latin1()
    {
      hide In;
      var listIndex := 0;
      while true
        invariant listIndex < |list| && listIndex % 2 == 0 && PreviousLimit(listIndex) <= 0x100
        invariant forall c: nat :: c < 0x100 ==> latin1Contains[c] == (c < PreviousLimit(listIndex) && In(list, c))
        decreases |list| - listIndex
      {
        var start, limit, next := FetchRange(listIndex);
        forall c: nat
          ensures start <= c < limit ==> In(list, c)
          ensures PreviousLimit(listIndex) <= c < start ==> !In(list, c)
        {
          RangeMembers(list, listIndex, start, limit, c);
        }
        if start >= 0x100 {
          break;
        }
        var c := start;
        while true
          invariant start <= c < limit && c < 0x100
          invariant forall d: nat :: d < 0x100 ==> latin1Contains[d] == (d < c && In(list, d))
          decreases 0x100 - c
        {
          latin1Contains[c] := true;
          c := c + 1;
          if !(c < limit && c < 0x100) {
            break;
          }
        }
        if limit > 0x100 {
          break;
        }
        listIndex := next;
      }
    }

    /**
     `start` to `limit` - 1 are the members of the range at list index `i` that have not been
     recorded, and nothing from `from` up to them is a member.
     */
    ghost predicate Pending(i: nat, from: int, start: int, limit: int) {
      IsInversionList(list) && i < |list| && i % 2 == 0 && from <= start <= HIGH &&
      limit == (if i + 1 < |list| then list[i + 1] else HIGH) && (start < HIGH ==> start < limit) &&
      (forall c: nat :: start <= c < limit ==> In(list, c)) &&
      (forall c: nat :: from <= c < start ==> !In(list, c))
    }

    /** Goes on to the following range, once the table is right up to the end of this one. */
    method NextRange(i: nat, ghost limit: int) returns (next: nat, start: int, limit': int)
      requires IsInversionList(list) && i + 2 < |list| && i % 2 == 0 && limit == list[i + 1]
      ensures Pending(next, limit, start, limit') && next == i + 2
    {
      hide In;
      next := i + 2;
      var after;
      start, limit', after := FetchRange(next);
      forall c: nat
        ensures start <= c < limit' ==> In(list, c)
        ensures limit <= c < start ==> !In(list, c)
      {
        RangeMembers(list, next, start, limit', c);
      }
    }

    /** Skips the ranges that lie below 0x80; the one that is left begins the part that the tables hold. */
    method FindFrom80() returns (listIndex: nat, start: int, limit: int)
      requires IsInversionList(list)
      ensures Pending(listIndex, 0x80, start, limit)
    {
      hide In;
      listIndex := 0;
      while true
        invariant listIndex < |list| && listIndex % 2 == 0 && PreviousLimit(listIndex) <= 0x80
        decreases |list| - listIndex
      {
        var next;
        start, limit, next := FetchRange(listIndex);
        forall c: nat
          ensures start <= c < limit ==> In(list, c)
          ensures PreviousLimit(listIndex) <= c < start ==> !In(list, c)
        {
          RangeMembers(list, listIndex, start, limit, c);
        }
        if limit > 0x80 {
          if start < 0x80 {
            start := 0x80;
          }
          return;
        }
        listIndex := next;
      }
    }

    /** Marks the members from 0x80 to 0x7ff. */
    method Init7FF(first: nat, firstStart: int, firstLimit: int) returns (listIndex: nat, start: int, limit: int)
      requires Shaped() && Pending(first, 0x80, firstStart, firstLimit)
      requires forall t: nat, l: nat :: t < 64 && l < 32 ==> !Bit(table7FF[t], l)
      modifies table7FF
      ensures Pending(listIndex, 0x800, start, limit)
      ensures forall t: nat, l: nat :: t < 64 && l < 32 ==> Bit(table7FF[t], l) == (2 <= l && In(list, 64 * l + t))
    {
      hide In, Bit, IsInversionList;
      listIndex, start, limit := first, firstStart, firstLimit;
      ghost var from := 0x80;
      while start < 0x800
        invariant 0x80 <= from <= start && Pending(listIndex, from, start, limit)
        invariant forall t: nat, l: nat :: t < 64 && l < 32 ==>
                    Bit(table7FF[t], l) == (0x80 <= 64 * l + t < from && In(list, 64 * l + t))
        decreases 0x800 - start
      {
        Set32x64Bits(table7FF, start, if limit <= 0x800 then limit else 0x800);
        if limit > 0x800 {
          start := 0x800;
          from := 0x800;
          break;
        }
        from := limit;
        IndexBelow(listIndex, limit);
        listIndex, start, limit := NextRange(listIndex, limit);
      }
    }

    lemma IndexBelow(i: nat, limit: int)
      requires IsInversionList(list) && i < |list| && i % 2 == 0 && limit < HIGH
      requires limit == (if i + 1 < |list| then list[i + 1] else HIGH)
      ensures i + 2 < |list| && limit == list[i + 1]
    {
    }

    /**
     The bits of all blocks that end at or before `frontier` or `minStart` are final, and
     later blocks have no bits yet and no member before `frontier`.
     */
    ghost predicate BlocksUpTo(frontier: int, minStart: int)
      requires Shaped()
      reads bmpBlockBits
    {
      0x800 <= minStart && minStart % 64 == 0 &&
      forall t: nat, l: nat :: t < 64 && l < 16 ==>
        BlockUpTo(64 * l + t, frontier, minStart, Bit(bmpBlockBits[t], l), Bit(bmpBlockBits[t], l + 16))
    }

    ghost predicate BlockUpTo(block: nat, frontier: int, minStart: int, low: bool, high: bool) {
      if block < 0x20 then !low && !high
      else if 64 * block + 64 <= minStart || 64 * block + 64 <= frontier then Decides(list, block, low, high)
      else !low && !high && forall c: nat :: 64 * block <= c < frontier ==> !In(list, c)
    }

    lemma GapKeepsBlocks(from: int, start: int, minStart: int)
      requires Shaped() && from <= start && BlocksUpTo(from, minStart)
      requires forall c: nat :: from <= c < start ==> !In(list, c)
      ensures BlocksUpTo(start, minStart)
    {
      hide In, Bit, IsInversionList;
    }

    /** What one range does to the bits of one block. */
    lemma RangeKeepsBlock(block: nat, start: int, limit: int, minStart: int, low: bool, high: bool,
                          first: bool, all: bool, last: bool, minStart': int)
      requires 0x800 <= start < limit <= 0x1_0000 && minStart % 64 == 0 && 0x800 <= minStart && block < 0x400
      requires BlockUpTo(block, start, minStart, low, high)
      requires forall c: nat :: start <= c < limit ==> In(list, c)
      requires limit < 0x1_0000 ==> !In(list, limit)
      requires var s := if start < minStart then minStart else start;
               var s' := if s % 64 != 0 then s / 64 * 64 + 64 else s;
               first == (s < limit && s % 64 != 0 && block == s / 64) &&
               all == (s < limit && s' / 64 <= block < limit / 64) &&
               last == (s < limit && s' < limit && limit % 64 != 0 && block == limit / 64) &&
               minStart' == if s >= limit then minStart
                            else if s' < limit && limit % 64 != 0 then limit / 64 * 64 + 64
                            else if s % 64 != 0 then s' else minStart
      ensures BlockUpTo(block, limit, minStart', low || first || all || last, high || first || last)
    {
      hide In;
      var s := if start < minStart then minStart else start;
      if s < limit && block >= 0x20 {
        if first {
          assert In(list, s) && !In(list, 64 * block);
        }
        if last {
          assert In(list, 64 * block) && !In(list, limit);
        }
      }
    }

    /** Sets both marks of a block of 0x40 code points, so that it reads as mixed. */
    method MarkMixed(block: nat)
      requires bmpBlockBits.Length == 64 && block < 0x400
      modifies bmpBlockBits
      ensures forall t: nat, l: nat :: t < 64 && l < 32 ==>
                Bit(bmpBlockBits[t], l) ==
                  (old(Bit(bmpBlockBits[t], l)) || (t == block % 64 && (l == block / 64 || l == block / 64 + 16)))
    {
      hide Bit, Or, And, Not, TwoBits;
      ghost var was := bmpBlockBits[..];
      var bits := TwoBits(block / 64);
      bmpBlockBits[block % 64] := Or(bmpBlockBits[block % 64], bits);
      forall t: nat, l: nat | t < 64 && l < 32
        ensures Bit(bmpBlockBits[t], l) ==
                (Bit(was[t], l) || (t == block % 64 && (l == block / 64 || l == block / 64 + 16)))
      {
        BitOr(was[t], bits, l);
        BitPair(block / 64, l);
      }
    }

    /** Sets the bits of the blocks a range touches, beginning with the first one that is not known to be mixed. */
    method SetBits(rangeStart: int, rangeLimit: int, minStart: int) returns (minStart': int, limit: int)
      requires bmpBlockBits.Length == 64 && 0x800 <= rangeStart < rangeLimit <= 0x1_0000 && minStart % 64 == 0
      modifies bmpBlockBits
      ensures var s := if rangeStart < minStart then minStart else rangeStart;
              var s' := if s % 64 != 0 then s / 64 * 64 + 64 else s;
              minStart' == (if s >= rangeLimit then minStart
                            else if s' < rangeLimit && rangeLimit % 64 != 0 then rangeLimit / 64 * 64 + 64
                            else if s % 64 != 0 then s' else minStart) &&
              limit == (if s < rangeLimit && s' < rangeLimit && rangeLimit % 64 != 0 then minStart' else rangeLimit) &&
              forall t: nat, l: nat :: t < 64 && l < 16 ==>
                var block := 64 * l + t;
                var first := s < rangeLimit && s % 64 != 0 && block == s / 64;
                var all := s < rangeLimit && s' / 64 <= block < rangeLimit / 64;
                var last := s < rangeLimit && s' < rangeLimit && rangeLimit % 64 != 0 && block == rangeLimit / 64;
                Bit(bmpBlockBits[t], l) == (old(Bit(bmpBlockBits[t], l)) || first || all || last) &&
                Bit(bmpBlockBits[t], l + 16) == (old(Bit(bmpBlockBits[t], l + 16)) || first || last)
    {
      hide Bit, Or, And, Not, TwoBits;
      var start := rangeStart;
      limit := rangeLimit;
      minStart' := minStart;
      if start < minStart {
        start := minStart;
      }
      if start < limit {
        if start % 64 != 0 {
          MarkMixed(start / 64);
          start := (start / 64 + 1) * 64;
          minStart' := start;
        }
        if start < limit {
          if start < limit / 64 * 64 {
            Set32x64Bits(bmpBlockBits, start / 64, limit / 64);
          }
          if limit % 64 != 0 {
            MarkMixed(limit / 64);
            limit := (limit / 64 + 1) * 64;
            minStart' := limit;
          }
        }
      }
    }

    /** Records one range of members below 0x10000 in the block bits. */
    method SetBlocks(start: int, limit: int, minStart: int) returns (minStart': int, limit': int)
      requires Shaped() && 0x800 <= start < limit <= 0x1_0000 && BlocksUpTo(start, minStart)
      requires forall c: nat :: start <= c < limit ==> In(list, c)
      requires limit < 0x1_0000 ==> !In(list, limit)
      modifies bmpBlockBits
      ensures BlocksUpTo(limit, minStart')
      ensures limit' == limit || (limit' == minStart' && limit % 64 != 0)
    {
      hide In, Bit, IsInversionList, BlockUpTo;
      ghost var was := bmpBlockBits[..];
      minStart', limit' := SetBits(start, limit, minStart);
      ghost var s := if start < minStart then minStart else start;
      ghost var s' := if s % 64 != 0 then s / 64 * 64 + 64 else s;
      forall t: nat, l: nat | t < 64 && l < 16
        ensures BlockUpTo(64 * l + t, limit, minStart', Bit(bmpBlockBits[t], l), Bit(bmpBlockBits[t], l + 16))
      {
        var block := 64 * l + t;
        RangeKeepsBlock(block, start, limit, minStart, Bit(was[t], l), Bit(was[t], l + 16),
                        s < limit && s % 64 != 0 && block == s / 64,
                        s < limit && s' / 64 <= block < limit / 64,
                        s < limit && s' < limit && limit % 64 != 0 && block == limit / 64, minStart');
      }
    }

    /** Once everything below 0x10000 has been recorded, all bits are final. */
    lemma AllBlocks(frontier: int, minStart: int)
      requires Shaped() && BlocksUpTo(frontier, minStart) && (frontier >= 0x1_0000 || minStart >= 0x1_0000)
      ensures BlocksFinal()
    {
      hide In, Bit, IsInversionList, Decides;
      forall t: nat, l: nat | t < 64 && l < 16
        ensures BlockFinal(t, l, Bit(bmpBlockBits[t], l), Bit(bmpBlockBits[t], l + 16))
      {
        assert BlockUpTo(64 * l + t, frontier, minStart, Bit(bmpBlockBits[t], l), Bit(bmpBlockBits[t], l + 16));
      }
    }

    /** The bits of all blocks from 0x800 on tell their members. */
    ghost predicate BlocksFinal()
      requires Shaped()
      reads bmpBlockBits
    {
      forall t: nat, l: nat :: t < 64 && l < 16 ==>
        BlockFinal(t, l, Bit(bmpBlockBits[t], l), Bit(bmpBlockBits[t], l + 16))
    }

    ghost predicate BlockFinal(t: nat, l: nat, low: bool, high: bool) {
      if l == 0 && t < 32 then !low && !high else Decides(list, 64 * l + t, low, high)
    }

    /** Sets the bits of all blocks from 0x800 on. */
    method InitBlocks(first: nat, firstStart: int, firstLimit: int)
      requires Shaped() && Pending(first, 0x800, firstStart, firstLimit)
      requires forall t: nat, l: nat :: t < 64 && l < 32 ==> !Bit(bmpBlockBits[t], l)
      modifies bmpBlockBits
      ensures BlocksFinal()
    {
      hide In, Bit, IsInversionList, Decides;
      var listIndex, start, limit := first, firstStart, firstLimit;
      var minStart := 0x800;
      GapKeepsBlocks(0x800, start, minStart);
      while start < 0x1_0000
        invariant 0x800 <= start && Pending(listIndex, start, start, limit) && BlocksUpTo(start, minStart)
        decreases 0x1_0000 - start
      {
        ghost var end := if limit > 0x1_0000 then 0x1_0000 else limit;
        var cut := limit;
        if limit > 0x1_0000 {
          cut := 0x1_0000;
        }
        if limit < 0x1_0000 {
          RangeLimit(list, listIndex, list[listIndex], limit);
        }
        minStart, cut := SetBlocks(start, cut, minStart);
        if cut == 0x1_0000 {
          AllBlocks(end, minStart);
          return;
        }
        IndexBelow(listIndex, limit);
        ghost var from := limit;
        listIndex, start, limit := NextRange(listIndex, limit);
        GapKeepsBlocks(from, start, minStart);
      }
      AllBlocks(start, minStart);
    }

    /** Sets the bits and bytes for all members below 0x10000. */
    method InitBits()
      requires Shaped()
      requires forall c :: 0 <= c < 0x100 ==> !latin1Contains[c]
      requires forall t :: 0 <= t < 64 ==> table7FF[t] == 0 && bmpBlockBits[t] == 0
      modifies latin1Contains, table7FF, bmpBlockBits
      ensures Latin1() && BlocksFinal()
      ensures forall t: nat, l: nat :: t < 64 && l < 32 ==> Bit(table7FF[t], l) == (2 <= l && In(list, 64 * l + t))
    {
      hide In, Bit, IsInversionList, Decides;
      forall l: nat | l < 32
        ensures !Bit(0, l)
      {
        BitZero(l);
      }
      InitLatin1();
      var listIndex, start, limit := FindFrom80();
      listIndex, start, limit := Init7FF(listIndex, start, limit);
      InitBlocks(listIndex, start, limit);
    }

    /** Sets the bits for lead bytes 0xC0, 0xC1, the first half of 0xE0 and the second half of 0xED. */
    method OverrideWithOnes()
      requires Shaped()
      modifies table7FF, bmpBlockBits
      ensures forall t: nat, l: nat :: t < 64 && l < 32 ==> Bit(table7FF[t], l) == (old(Bit(table7FF[t], l)) || l < 2)
      ensures forall t: nat, l: nat :: t < 64 && l < 32 ==>
                Bit(bmpBlockBits[t], l) ==
                if t < 32 then old(Bit(bmpBlockBits[t], l)) || l == 0
                else (old(Bit(bmpBlockBits[t], l)) && l != 0x1d) || l == 0xd
    {
      hide In, Bit, Or, And, Not, OneBit, IsInversionList;
      ghost var was7FF, wasBlocks := table7FF[..], bmpBlockBits[..];
      var bits: Word := 3;
      OrColumn(table7FF, 0, 64, bits);
      OrColumn(bmpBlockBits, 0, 32, 1);
      var mask := SurrogateMask();
      ReplaceColumn(bmpBlockBits, 32, 64, mask, OneBit(0xd));
      forall t: nat, l: nat | t < 64 && l < 32
        ensures Bit(table7FF[t], l) == (Bit(was7FF[t], l) || l < 2)
        ensures Bit(bmpBlockBits[t], l) ==
                if t < 32 then Bit(wasBlocks[t], l) || l == 0
                else (Bit(wasBlocks[t], l) && l != 0x1d) || l == 0xd
      {
        BitOr(was7FF[t], 3, l);
        BitThree(l);
        BitOr(wasBlocks[t], 1, l);
        BitOne(l);
        BitAnd(wasBlocks[t], mask, l);
        BitOr(And(wasBlocks[t], mask), OneBit(0xd), l);
        BitShifted(0xd, l);
      }
    }

    method SurrogateMask() returns (mask: Word)
      ensures forall l: nat :: l < 32 ==> Bit(mask, l) == (l != 0xd && l != 0x1d)
    {
      hide Bit, Or, And, Not, TwoBits;
      var shifted := TwoBits(0xd);
      mask := Not(shifted);
      forall l: nat | l < 32
        ensures Bit(mask, l) == (l != 0xd && l != 0x1d)
      {
        BitNot(shifted, l);
        BitPair(0xd, l);
      }
    }

    /** Clears the bits for the surrogates. */
    method OverrideWithZeros()
      requires Shaped()
      modifies bmpBlockBits
      ensures forall t: nat, l: nat :: t < 64 && l < 32 ==>
                Bit(bmpBlockBits[t], l) == (old(Bit(bmpBlockBits[t], l)) && !(32 <= t && (l == 0xd || l == 0x1d)))
    {
      hide In, Bit, Or, And, Not, IsInversionList;
      ghost var wasBlocks := bmpBlockBits[..];
      var mask := SurrogateMask();
      ReplaceColumn(bmpBlockBits, 32, 64, mask, 0);
      forall t: nat, l: nat | t < 64 && l < 32
        ensures Bit(bmpBlockBits[t], l) == (Bit(wasBlocks[t], l) && !(32 <= t && (l == 0xd || l == 0x1d)))
      {
        BitAnd(wasBlocks[t], mask, l);
        BitOr(And(wasBlocks[t], mask), 0, l);
        BitZero(l);
      }
    }

    /** Gives the entries that only ill-formed sequences lead to the membership of U+FFFD. */
    method OverrideIllegal()
      requires Shaped() && BlocksFinal()
      requires forall t: nat, l: nat :: t < 64 && l < 32 ==> Bit(table7FF[t], l) == (2 <= l && In(list, 64 * l + t))
      modifies table7FF, bmpBlockBits
      ensures Table7FF() && BmpBlocks()
    {
      hide In, Bit, IsInversionList, Decides;
      ghost var was := bmpBlockBits[..];
      if containsFFFD {
        OverrideWithOnes();
      } else {
        OverrideWithZeros();
      }
      forall t: nat, l: nat | t < 64 && l < 16
        ensures BlockValue(t, l, containsFFFD, Bit(bmpBlockBits[t], l), Bit(bmpBlockBits[t], l + 16))
      {
        assert BlockFinal(t, l, Bit(was[t], l), Bit(was[t], l + 16));
      }
    }

    // ----- lookups

    /** A restricted search finds the rank of every code point of its 4k block. */
    lemma BlockStarts(lead: nat, c: int)
      requires Shaped() && Starts() && lead <= 0xf && 0x1000 * lead <= c < 0x1000 * (lead + 1) && 0x800 <= c
      ensures list4kStarts[lead] <= Rank(list, c) <= list4kStarts[lead + 1] < |list|
    {
      RankMonotone(list, if lead == 0 then 0x800 else 0x1000 * lead, c, |list|);
      RankMonotone(list, c, 0x1000 * (lead + 1), |list|);
      RankBounds(list, 0x1000 * (lead + 1));
    }

    /** The lookup of a lead (four bits), a middle and a last part (six bits each) of a code point. */
    method LookUp(lead: nat, t1: nat, t2: nat) returns (r: bool)
      requires Valid() && lead <= 0xf && t1 <= 0x3f && t2 <= 0x3f
      ensures r == if (lead == 0 && t1 < 32) || (lead == 0xd && 32 <= t1) then containsFFFD
                   else In(list, lead * 0x1000 + t1 * 0x40 + t2)
    {
      hide In, Bit, IsInversionList, Latin1, Table7FF;
      var c := lead * 0x1000 + t1 * 0x40 + t2;
      var twoBits := (bmpBlockBits[t1] >> lead) & 0x1_0001;
      PairValue(bmpBlockBits[t1], lead);
      assert BlockValue(t1, lead, containsFFFD, Bit(bmpBlockBits[t1], lead), Bit(bmpBlockBits[t1], lead + 16));
      if twoBits <= 1 {
        r := twoBits == 1;
      } else {
        BlockStarts(lead, c);
        r := ContainsSlow(c, list4kStarts[lead], list4kStarts[lead + 1]);
      }
    }

    method LookUp7FF(lead: nat, t1: nat) returns (r: bool)
      requires Valid() && lead <= 0x1f && t1 <= 0x3f
      ensures r == if lead < 2 then containsFFFD else In(list, lead * 0x40 + t1)
    {
      hide In, Bit, And, OneBit, IsInversionList, Latin1, BmpBlocks;
      BitTest(table7FF[t1], lead);
      r := And(table7FF[t1], OneBit(lead)) != 0;
    }

    /** Membership of what the tables do not hold: a binary search from 0xd000 on. */
    method LookUpAbove(c: int, lo: nat, hi: nat) returns (r: bool)
      requires Valid() && lo < hi <= 0x11 && 0xd <= lo && (hi <= 0xe || 0x11 <= hi)
      requires 0x1000 * lo <= c < (if hi == 0x11 then HIGH else 0x1000 * hi)
      ensures r == In(list, c)
    {
      RankMonotone(list, 0x1000 * lo, c, |list|);
      RankBounds(list, c);
      if hi < 0x11 {
        RankMonotone(list, c, 0x1000 * hi, |list|);
        RankBounds(list, 0x1000 * hi);
      }
      r := ContainsSlow(c, list4kStarts[lo], list4kStarts[hi]);
    }

    /** Membership through the tables is membership in the inversion list, for every number. */
    method Contains(c: int) returns (r: bool)
      requires Valid()
      ensures r == (0 <= c < HIGH && In(list, c))
    {
      hide In, Starts, Table7FF, BmpBlocks;
      if 0 <= c <= 0xff {
        r := latin1Contains[c];
      } else if 0 <= c <= 0x7ff {
        r := LookUp7FF(c / 64, c % 64);
      } else if 0 <= c < 0xd800 || 0xe000 <= c <= 0xffff {
        r := LookUp(c / 0x1000, c / 64 % 64, c % 64);
      } else if 0 <= c <= 0x10_ffff {
        r := LookUpAbove(c, 0xd, 0x11);
      } else {
        r := false;
      }
    }

    // ----- spans

    /** The span condition: being a member, or not being one. */
    ghost function Condition(contained: bool): int -> bool {
      c => In(list, c) == contained
    }

    /** Membership of one 16-bit unit that is not half of a surrogate pair. */
    method UnitContained(c: Unit) returns (r: bool)
      requires Valid()
      ensures r == In(list, c)
    {
      hide In, Starts, Table7FF, BmpBlocks;
      if c <= 0xff {
        r := latin1Contains[c];
      } else if c <= 0x7ff {
        r := LookUp7FF(c / 64, c % 64);
      } else if c < 0xd800 || c >= 0xe000 {
        r := LookUp(c / 0x1000, c / 64 % 64, c % 64);
      } else {
        r := LookUpAbove(c, 0xd, 0xe);
      }
    }

    /** The end of the longest prefix of a text whose code points are all members, or all not. */
    method Span(s: seq<Unit>, contained: bool) returns (i: nat)
      requires Valid() && 0 < |s|
      ensures i <= |s| && IsSpan(s, i, Condition(contained))
      ensures forall k: nat :: k < i && Boundary(s, k) ==> In(list, CodePointAt(s, k)) == contained
      ensures i < |s| ==> In(list, CodePointAt(s, i)) != contained
    {
      hide In, Shaped, Starts, Latin1, Table7FF, BmpBlocks;
      i := 0;
      while true
        invariant i < |s| && Boundary(s, i)
        invariant forall j: nat :: j < i && Boundary(s, j) ==> In(list, CodePointAt(s, j)) == contained
        decreases |s| - i
      {
        var c := s[i];
        var member;
        SegmentationsCoincide(s, i);
        ghost var next := After(s, i);
        if !IsLead(c) || i + 1 == |s| || !IsTrail(s[i + 1]) {
          member := UnitContained(c);
          if member != contained {
            break;
          }
        } else {
          member := LookUpAbove(Supplementary(c, s[i + 1]), 0x10, 0x11);
          if member != contained {
            break;
          }
          i := i + 1;
        }
        i := i + 1;
        if i >= |s| {
          break;
        }
      }
    }

    /** The start of the longest suffix of a text whose code points are all members, or all not. */
    method SpanBack(s: seq<Unit>, contained: bool) returns (r: nat)
      requires Valid() && 0 < |s|
      ensures r <= |s| && IsSpanBack(s, r, Condition(contained))
      ensures forall k: nat :: r <= k < |s| && Boundary(s, k) ==> In(list, CodePointAt(s, k)) == contained
      ensures 0 < r ==> In(list, CodePointAt(s, Before(s, r))) != contained
    {
      hide In, Shaped, Starts, Latin1, Table7FF, BmpBlocks, Boundary, CodePointAt;
      var limit := |s|;
      SegmentationsCoincide(s, 0);
      while true
        invariant 0 < limit <= |s| && Boundary(s, limit)
        invariant forall j: nat :: limit <= j < |s| && Boundary(s, j) ==> In(list, CodePointAt(s, j)) == contained
        decreases limit
      {
        StepBack(s, limit);
        limit := limit - 1;
        var c := s[limit];
        var member;
        if !IsTrail(c) || limit == 0 || !IsLead(s[limit - 1]) {
          member := UnitContained(c);
          if member != contained {
            break;
          }
        } else {
          member := LookUpAbove(Supplementary(s[limit - 1], c), 0x10, 0x11);
          if member != contained {
            break;
          }
          limit := limit - 1;
        }
        if limit == 0 {
          return 0;
        }
      }
      return limit + 1;
    }

    /** A lead byte 0xe0..0xef with two tail bytes; an illegal sequence has the value for U+FFFD. */
    method ThreeBytes(s: seq<Byte>, i: nat, contained: bool) returns (member: bool)
      requires Valid() && i + 2 < |s| && 0xe0 <= s[i] < 0xf0 && Tail(s[i + 1]) && Tail(s[i + 2])
      ensures NaiveSpan(s, i, Condition(contained)) ==
              if member == contained then NaiveSpan(s, i + 3, Condition(contained)) else i
    {
      hide In, Shaped, Starts, Latin1, Table7FF, BmpBlocks;
      member := LookUp(s[i] as int - 0xe0, SixBits(s[i + 1]), SixBits(s[i + 2]));
      if SequenceLength(s, i) == 0 {
        IllFormedRun(s, i, 3, Condition(contained));
      }
    }

    /** A lead byte from 0xf0 on with three tail bytes; an illegal sequence has the value for U+FFFD. */
    method FourBytes(s: seq<Byte>, i: nat, contained: bool) returns (member: bool)
      requires Valid() && i + 3 < |s| && 0xf0 <= s[i] && Tail(s[i + 1]) && Tail(s[i + 2]) && Tail(s[i + 3])
      ensures NaiveSpan(s, i, Condition(contained)) ==
              if member == contained then NaiveSpan(s, i + 4, Condition(contained)) else i
    {
      hide In, Shaped, Starts, Latin1, Table7FF, BmpBlocks;
      var c := (s[i] as int - 0xf0) * 0x4_0000 + SixBits(s[i + 1]) * 0x1000 + SixBits(s[i + 2]) * 0x40 +
        SixBits(s[i + 3]);
      member := containsFFFD;
      if 0x1_0000 <= c <= 0x10_ffff {
        member := LookUpAbove(c, 0x10, 0x11);
      }
      if SequenceLength(s, i) == 0 {
        IllFormedRun(s, i, 4, Condition(contained));
      }
    }

    /** A lead byte 0xc0..0xdf with a tail byte; an illegal sequence has the value for U+FFFD. */
    method TwoBytes(s: seq<Byte>, i: nat, contained: bool) returns (member: bool)
      requires Valid() && i + 1 < |s| && 0xc0 <= s[i] < 0xe0 && Tail(s[i + 1])
      ensures NaiveSpan(s, i, Condition(contained)) ==
              if member == contained then NaiveSpan(s, i + 2, Condition(contained)) else i
    {
      hide In, Shaped, Starts, Latin1, Table7FF, BmpBlocks;
      member := LookUp7FF(s[i] as int - 0xc0, SixBits(s[i + 1]));
      if SequenceLength(s, i) == 0 {
        IllFormedRun(s, i, 2, Condition(contained));
      }
    }

    /**
     Decodes the bytes at `i`, where a non-ASCII byte is: either the span ends there, or it
     continues at `next`. Overlong forms, surrogates and values above 0x10ffff are skipped
     as a whole.
     */
    method DecodeNonAscii(s: seq<Byte>, limit: nat, i: nat, contained: bool) returns (stop: bool, next: nat)
      requires Valid() && Trimmed(s, limit) && i < limit && 0x80 <= s[i]
      ensures !stop ==> i < next <= limit
      ensures NaiveSpan(s, i, Condition(contained)) == if stop then i else NaiveSpan(s, next, Condition(contained))
    {
      hide In, Shaped, Starts, Latin1, Table7FF, BmpBlocks, NaiveSpan;
      var b := s[i];
      next := i + 1;
      if b >= 0xc0 {
        TrimmedReads(s, limit, i);
      }
      var member;
      if b >= 0xe0 {
        if b < 0xf0 {
          if Tail(s[i + 1]) && Tail(s[i + 2]) {
            member := ThreeBytes(s, i, contained);
            return member != contained, i + 3;
          }
        } else if Tail(s[i + 1]) && Tail(s[i + 2]) && Tail(s[i + 3]) {
          member := FourBytes(s, i, contained);
          return member != contained, i + 4;
        }
      } else if b >= 0xc0 && Tail(s[i + 1]) {
        member := TwoBytes(s, i, contained);
        return member != contained, i + 2;
      }
      IllFormedRun(s, i, 1, Condition(contained));
      stop := containsFFFD != contained;
    }

    /**
     Moves the limit of a text back before a sequence that its end cuts off. The bytes of that
     sequence count as U+FFFD each: where this satisfies the condition, a span that reaches the
     limit goes on to the end of the text.
     */
    method Trim(s: seq<Byte>, start: nat, contained: bool) returns (limit: nat, limit0: nat)
      requires Valid() && start < |s| && forall k :: 0 <= k < start ==> s[k] < 0x80
      ensures start <= limit && Trimmed(s, limit) && limit0 <= |s|
      ensures NaiveSpan(s, limit, Condition(contained)) == limit0
    {
      hide In, Shaped, Starts, Latin1, Table7FF, BmpBlocks;
      var length := |s| - start;
      limit, limit0 := |s|, |s|;
      var b := s[|s| - 1];
      if b >= 0x80 {
        if b < 0xc0 {
          if length >= 2 && s[|s| - 2] >= 0xe0 {
            limit := |s| - 2;
          } else if length >= 3 && 0x80 <= s[|s| - 2] < 0xc0 && s[|s| - 3] >= 0xf0 {
            limit := |s| - 3;
          }
        } else {
          limit := |s| - 1;
        }
        if limit < |s| {
          if containsFFFD != contained {
            limit0 := limit;
          }
          IllFormedRun(s, limit, |s| - limit, Condition(contained));
        }
      }
    }

    /** Skips ASCII bytes that satisfy the condition, up to `limit`. */
    method SpanAscii(s: seq<Byte>, from: nat, limit: nat, contained: bool) returns (i: nat)
      requires Valid() && from <= limit <= |s|
      ensures from <= i <= limit && forall k :: from <= k < i ==> s[k] < 0x80
      ensures NaiveSpan(s, from, Condition(contained)) == NaiveSpan(s, i, Condition(contained))
      ensures i < limit && s[i] < 0x80 ==> NaiveSpan(s, i, Condition(contained)) == i
    {
      hide In, Starts, Table7FF, BmpBlocks;
      i := from;
      while i < limit && s[i] < 0x80
        invariant from <= i <= limit && forall k :: from <= k < i ==> s[k] < 0x80
        invariant NaiveSpan(s, from, Condition(contained)) == NaiveSpan(s, i, Condition(contained))
      {
        if latin1Contains[s[i]] != contained {
          return;
        }
        i := i + 1;
      }
    }

    /**
     The end of the longest prefix of a UTF-8 text whose code points are all members, or all
     not, where each byte of an ill-formed sequence counts as U+FFFD. Nothing is read
     beyond the end of the text.
     */
    method SpanUTF8(s: seq<Byte>, contained: bool) returns (r: nat)
      requires Valid() && 0 < |s|
      ensures r == NaiveSpan(s, 0, Condition(contained))
    {
      hide In, Shaped, Starts, Latin1, Table7FF, BmpBlocks, IsInversionList;
      var i := SpanAscii(s, 0, |s|, contained);
      if i == |s| || s[i] < 0x80 {
        return i;
      }
      var limit, limit0 := Trim(s, i, contained);
      while i < limit
        invariant i <= limit && NaiveSpan(s, 0, Condition(contained)) == NaiveSpan(s, i, Condition(contained))
        decreases limit - i
      {
        if s[i] < 0x80 {
          var from := i;
          i := SpanAscii(s, i, limit, contained);
          if i == limit {
            return limit0;
          }
          if s[i] < 0x80 {
            return i;
          }
        }
        var stop, next := DecodeNonAscii(s, limit, i, contained);
        if stop {
          return i;
        }
        i := next;
      }
      return limit0;
    }
  }
}
