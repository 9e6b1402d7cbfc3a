/**
 Words of 32 bits as rows of a bit table in "vertical" organization: bit `lead` of word
 `trail` stands for the number 64 * lead + trail.
 */
module BitTables {

  type Word = bv32

  type Index = bv6

  /** Bit `i` of a word, counted from the lowest. */
  function Bit(w: Word, i: nat): bool
    requires i < 32
  {
    IndexOf(i);
    BitAt(w, i as Index)
  }

  function BitAt(w: Word, i: Index): bool
    requires i < 32
  {
    (w >> i) & 1 == 1
  }

  function Or(a: Word, b: Word): Word {
    a | b
  }

  function And(a: Word, b: Word): Word {
    a & b
  }

  function Not(a: Word): Word {
    !a
  }

  lemma IndexOf(i: nat)
    requires i < 64
    ensures (i as Index) as int == i
  {
  }

  lemma IndexLess(i: nat, j: nat)
    requires i < 64 && j < 64
    ensures (i as Index) < (j as Index) <==> i < j
    ensures (i as Index) == (j as Index) <==> i == j
  {
    IndexOf(i);
    IndexOf(j);
  }

  lemma BitOrAt(a: Word, b: Word, i: Index)
    requires i < 32
    ensures BitAt(a | b, i) == (BitAt(a, i) || BitAt(b, i))
  {
  }

  lemma BitAndAt(a: Word, b: Word, i: Index)
    requires i < 32
    ensures BitAt(a & b, i) == (BitAt(a, i) && BitAt(b, i))
  {
  }

  lemma BitNotAt(a: Word, i: Index)
    requires i < 32
    ensures BitAt(!a, i) == !BitAt(a, i)
  {
  }

  lemma BitShiftedAt(j: Index, i: Index)
    requires i < 32 && j < 32
    ensures BitAt(1 << j, i) == (i == j)
    ensures BitAt((1 << j) - 1, i) == (i < j)
  {
  }

  lemma BitPairAt(j: Index, i: Index)
    requires j < 16 && i < 32
    ensures BitAt((0x1_0001 as Word) << j, i) == (i == j || i == j + 16)
  {
  }

  lemma PairValueAt(w: Word, j: Index)
    requires j < 16
    ensures (w >> j) & 0x1_0001 == (if BitAt(w, j) then 1 else 0) + (if BitAt(w, j + 16) then 0x1_0000 else 0)
  {
  }

  lemma BitTestAt(w: Word, one: Word, j: Index)
    requires j < 32 && one == 1 << j
    ensures And(w, one) != 0 <==> BitAt(w, j)
  {
  }

  lemma BitOr(a: Word, b: Word, i: nat)
    requires i < 32
    ensures Bit(Or(a, b), i) == (Bit(a, i) || Bit(b, i))
  {
    hide BitAt;
    IndexLess(i, 32);
    BitOrAt(a, b, i as Index);
  }

  lemma BitAnd(a: Word, b: Word, i: nat)
    requires i < 32
    ensures Bit(And(a, b), i) == (Bit(a, i) && Bit(b, i))
  {
    hide BitAt;
    IndexLess(i, 32);
    BitAndAt(a, b, i as Index);
  }

  lemma BitNot(a: Word, i: nat)
    requires i < 32
    ensures Bit(Not(a), i) == !Bit(a, i)
  {
    hide BitAt;
    IndexLess(i, 32);
    BitNotAt(a, i as Index);
  }

  /** One bit, and all bits below it. */
  lemma BitShifted(j: nat, i: nat)
    requires i < 32 && j < 32
    ensures Bit(OneBit(j), i) == (i == j)
    ensures Bit(BitsBelow(j), i) == (i < j)
  {
    hide BitAt;
    IndexLess(i, 32);
    IndexLess(j, 32);
    IndexLess(i, j);
    BitShiftedAt(j as Index, i as Index);
  }

  /** The words the tables are written with: one bit, and a pair of bits. */
  function OneBit(lead: nat): Word
    requires lead < 32
  {
    1 << lead
  }

  function TwoBits(lead: nat): Word
    requires lead < 16
  {
    (0x1_0001 as Word) << lead
  }

  /** All bits below one. */
  function BitsBelow(lead: nat): Word
    requires lead < 32
  {
    (1 << lead) - 1
  }

  lemma BitZero(i: nat)
    requires i < 32
    ensures !Bit(0, i)
  {
    IndexLess(i, 32);
  }

  /** The pair of bits `j` and `j + 16`. */
  lemma BitPair(j: nat, i: nat)
    requires j < 16 && i < 32
    ensures Bit(TwoBits(j), i) == (i == j || i == j + 16)
  {
    hide BitAt;
    IndexLess(j, 16);
    IndexLess(i, 32);
    IndexLess(i, j);
    IndexLess(i, j + 16);
    IndexSum(j);
    BitPairAt(j as Index, i as Index);
  }

  lemma IndexSum(j: nat)
    requires j < 16
    ensures ((j + 16) as Index) == (j as Index) + 16
  {
    IndexOf(j);
    IndexOf(j + 16);
  }

  /** Testing that pair: the upper bit alone tells whether the value exceeds 1. */
  lemma PairValue(w: Word, j: nat)
    requires j < 16
    ensures var twoBits := (w >> j) & 0x1_0001;
            (twoBits <= 1 <==> !Bit(w, j + 16)) && (twoBits <= 1 ==> (twoBits == if Bit(w, j) then 1 else 0))
  {
    hide BitAt;
    IndexLess(j, 16);
    IndexSum(j);
    PairValueAt(w, j as Index);
  }

  /** The single bit test of the table lookups. */
  lemma BitTest(w: Word, j: nat)
    requires j < 32
    ensures And(w, OneBit(j)) != 0 <==> Bit(w, j)
  {
    hide BitAt, And, OneBit;
    IndexLess(j, 32);
    OneBitAt(j);
    BitTestAt(w, OneBit(j), j as Index);
  }

  lemma OneBitAt(j: nat)
    requires j < 32
    ensures OneBit(j) == 1 << (j as Index)
  {
    IndexLess(j, 32);
  }

  lemma BitOne(i: nat)
    requires i < 32
    ensures Bit(1, i) == (i == 0)
  {
    IndexLess(i, 32);
    IndexLess(i, 0);
  }

  lemma BitThree(i: nat)
    requires i < 32
    ensures Bit(3, i) == (i < 2)
  {
    IndexLess(i, 32);
    IndexLess(i, 2);
  }

  /** Clears the bits that are not in the mask, then sets others, in a run of words. */
  method ReplaceColumn(table: array<Word>, start: nat, limit: nat, mask: Word, bits: Word)
    requires start <= limit <= table.Length
    modifies table
    ensures forall t :: 0 <= t < table.Length ==>
              table[t] == if start <= t < limit then Or(And(old(table[t]), mask), bits) else old(table[t])
  {
    hide Or, And;
    var i := start;
    while i < limit
      invariant start <= i <= limit
      invariant forall t :: 0 <= t < table.Length ==>
                  table[t] == if start <= t < i then Or(And(old(table[t]), mask), bits) else old(table[t])
    {
      table[i] := Or(And(table[i], mask), bits);
      i := i + 1;
    }
  }

  /** Sets the same bits in a run of words. */
  method OrColumn(table: array<Word>, start: nat, limit: nat, bits: Word)
    requires limit <= table.Length
    modifies table
    ensures forall t :: 0 <= t < table.Length ==>
              table[t] == if start <= t < limit then Or(old(table[t]), bits) else old(table[t])
  {
    hide Or;
    var trail := start;
    while trail < limit
      invariant start <= trail && (start <= limit ==> trail <= limit) && (limit < start ==> trail == start)
      invariant forall t :: 0 <= t < table.Length ==>
                  table[t] == if start <= t < trail then Or(old(table[t]), bits) else old(table[t])
    {
      table[trail] := Or(table[trail], bits);
      trail := trail + 1;
    }
  }

  /** The rectangle of bits `lead` to `limitLead - 1`. */
  method Rectangle(lead: nat, limitLead: nat) returns (bits: Word)
    requires lead < limitLead <= 32
    ensures forall l: nat :: l < 32 ==> Bit(bits, l) == (lead <= l < limitLead)
  {
    hide Bit, Or, And, Not, OneBit, BitsBelow;
    var below := BitsBelow(lead);
    bits := Not(below);
    forall l: nat | l < 32
      ensures Bit(bits, l) == (lead <= l)
    {
      BitShifted(lead, l);
      BitNot(below, l);
    }
    if limitLead < 0x20 {
      var all, cut := bits, BitsBelow(limitLead);
      bits := And(all, cut);
      forall l: nat | l < 32
        ensures Bit(bits, l) == (lead <= l < limitLead)
      {
        BitShifted(limitLead, l);
        BitAnd(all, cut, l);
      }
    }
  }

  /** Setting the same single bit in a run of words marks one partial column. */
  lemma ColumnMarks(was: seq<Word>, now: seq<Word>, lead: nat, start: nat, limit: nat)
    requires |was| == |now| == 64 && lead < 32
    requires forall t :: 0 <= t < 64 ==> now[t] == if start <= t < limit then Or(was[t], OneBit(lead)) else was[t]
    ensures forall t: nat, l: nat :: t < 64 && l < 32 ==>
              Bit(now[t], l) == (Bit(was[t], l) || (start <= t < limit && l == lead))
  {
    hide Bit, Or, And, Not, OneBit, BitsBelow;
    forall t: nat, l: nat | t < 64 && l < 32
      ensures Bit(now[t], l) == (Bit(was[t], l) || (start <= t < limit && l == lead))
    {
      BitOr(was[t], OneBit(lead), l);
      BitShifted(lead, l);
    }
  }

  /** Marks the numbers from `start` to `limit` - 1: a partial column, a rectangle, another partial column. */
  method Set32x64Bits(table: array<Word>, start: nat, limit: nat)
    requires table.Length == 64 && start < limit <= 0x800
    modifies table
    ensures forall t: nat, l: nat :: t < 64 && l < 32 ==>
              Bit(table[t], l) == (old(Bit(table[t], l)) || start <= 64 * l + t < limit)
  {
    hide Bit, Or, And, Not, OneBit, BitsBelow;
    var lead, trail := start / 64, start % 64;
    ghost var was := table[..];
    var bits := OneBit(lead);
    if start + 1 == limit {
      table[trail] := Or(table[trail], bits);
      ColumnMarks(was, table[..], lead, trail, trail + 1);
      return;
    }
    var limitLead, limitTrail := limit / 64, limit % 64;
    if lead == limitLead {
      OrColumn(table, trail, limitTrail, bits);
      ColumnMarks(was, table[..], lead, trail, limitTrail);
    } else {
      SetColumns(table, trail, lead, limitTrail, limitLead);
    }
  }

  method SetColumns(table: array<Word>, trail: nat, lead: nat, limitTrail: nat, limitLead: nat)
    requires table.Length == 64 && trail < 64 && limitTrail < 64 && lead < limitLead <= 32
    requires limitLead == 32 ==> limitTrail == 0
    modifies table
    ensures forall t: nat, l: nat :: t < 64 && l < 32 ==>
              Bit(table[t], l) ==
              (old(Bit(table[t], l)) || 64 * lead + trail <= 64 * l + t < 64 * limitLead + limitTrail)
  {
    hide Bit, Or, And, Not, OneBit, BitsBelow;
    ghost var was := table[..];
    var firstLead := lead;
    if trail > 0 {
      OrColumn(table, trail, 64, OneBit(lead));
      ColumnMarks(was, table[..], lead, trail, 64);
      firstLead := lead + 1;
    }
    SetRectangle(table, firstLead, limitLead);
    ghost var before := table[..];
    // A limit at the very end of the table leaves no partial column.
    var lastLead := if limitLead == 0x20 then limitLead - 1 else limitLead;
    OrColumn(table, 0, limitTrail, OneBit(lastLead));
    ColumnMarks(before, table[..], lastLead, 0, limitTrail);
  }

  method SetRectangle(table: array<Word>, lead: nat, limitLead: nat)
    requires table.Length == 64 && limitLead <= 32
    modifies table
    ensures forall t: nat, l: nat :: t < 64 && l < 32 ==>
              Bit(table[t], l) == (old(Bit(table[t], l)) || lead <= l < limitLead)
  {
    hide Bit, Or, And, Not, OneBit, BitsBelow;
    if lead < limitLead {
      ghost var was := table[..];
      var bits := Rectangle(lead, limitLead);
      OrColumn(table, 0, 64, bits);
      forall t: nat, l: nat | t < 64 && l < 32
        ensures Bit(table[t], l) == (Bit(was[t], l) || lead <= l < limitLead)
      {
        BitOr(was[t], bits, l);
      }
    }
  }
}
