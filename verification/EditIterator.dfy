/**
 The bidirectional iterator over an edit log, `Edits::Iterator` in `icu/common/edits.cpp`.
 It is proved against the list of spans of the log: wherever the iterator stands, its fields
 are those of one span of that list, and a search ends at the same span from every state.
 */
module EditIterator {
  import opened Common
  import opened EditSpans
  import opened EditRecords
  import opened ErrorCodes

  lemma Times(a: int, b: int, c: nat)
    requires a <= b
    ensures a * c <= b * c
  {
  }

  lemma QuotientBounds(m: nat, d: nat, num: nat)
    requires 0 < d && m < num * d
    ensures m / d < num && m / d * d <= m < m / d * d + d
    ensures d <= m ==> 1 <= m / d
  {
    assert m == m / d * d + m % d;
    if num <= m / d {
      Times(num, m / d, d);
    }
  }

  /** `n` steps of equal length, counted back from `start`, reach the step that contains `i`. */
  lemma StepsBack(start: nat, i: nat, length: nat, num: nat)
    requires start - num * length <= i < start
    ensures 0 < length
    ensures var n := (start - i - 1) / length + 1;
            1 <= n <= num && start - n * length <= i < start - n * length + length
  {
    if length > 0 {
      QuotientBounds(start - i - 1, length, num);
    }
  }

  /** `n` steps of equal length, counted on from `start`, reach the step that contains `i`. */
  lemma StepsOn(start: nat, i: nat, length: nat, num: nat)
    requires start + length <= i < start + num * length
    ensures 0 < length
    ensures var n := (i - start) / length;
            1 <= n < num && start + n * length <= i < start + n * length + length
  {
    if length > 0 {
      QuotientBounds(i - start, length, num);
    }
  }

  class Iterator {
    const units: seq<Unit>
    const onlyChanges: bool
    const coarse: bool

    var index: nat
    var remaining: nat  // changes of a packed record from the current one on, in the direction of the last step
    var dir: int  // the direction of the last step: -1 is backward, 1 is forward, 0 at either end
    var changed: bool
    var oldLength: nat
    var newLength: nat
    var srcIndex: nat
    var replIndex: nat
    var destIndex: nat

    ghost const records: seq<Record>
    ghost var e: nat  // the record boundary at `index`
    ghost var p: nat  // how many spans lie before the current one

    constructor (units: seq<Unit>, onlyChanges: bool, coarse: bool, ghost records: seq<Record>)
      requires ValidRecords(records) && units == Encode(records, |records|)
      ensures Valid() && dir == 0 && p == 0
      ensures this.units == units && this.records == records
      ensures this.onlyChanges == onlyChanges && this.coarse == coarse
    {
      this.units, this.onlyChanges, this.coarse, this.records := units, onlyChanges, coarse, records;
      index, remaining, dir, changed := 0, 0, 0, false;
      oldLength, newLength, srcIndex, replIndex, destIndex := 0, 0, 0, 0, 0;
      e, p := 0, 0;
    }

    /** All spans of the log, in the granularity of this iterator. */
    ghost function All(): seq<Span> {
      Spans(records, coarse)
    }

    /** The unit index rests between two records, at a span boundary. */
    ghost predicate Anchored()
      reads this
    {
      ValidRecords(records) && units == Encode(records, |records|) &&
      Clean(records, coarse, e) && index == HeadIndex(records, e) && p <= |All()|
    }

    /** The record before `d` is one unit of several equal changes that are iterated one by one. */
    ghost predicate Packed(d: nat)
      requires d < |records|
    {
      !coarse && records[d].Short? && 2 <= records[d].num
    }

    ghost predicate At(q: nat)
      reads this
    {
      q <= |All()| && Sums(All(), q) == (srcIndex, destIndex, replIndex)
    }

    ghost predicate IsCurrent(q: nat)
      reads this
    {
      q < |All()| && All()[q] == Span(changed, oldLength, newLength)
    }

    /** The iterator stands on span `p`, or before the first or after the last span. */
    ghost predicate Valid()
      reads this
    {
      Anchored() && At(p) &&
      (dir == -1 || dir == 0 || dir == 1) &&
      (dir == 0 ==>
         remaining == 0 && oldLength == 0 && newLength == 0 &&
         ((e == 0 && p == 0) || (e == |records| && p == |All()|))) &&
      (dir == 1 ==>
         0 < e && IsCurrent(p) &&
         if remaining == 0 then !Packed(e - 1) && p + 1 == Count(records, coarse, e)
         else Packed(e - 1) && remaining <= records[e - 1].num && p + remaining == Count(records, coarse, e)) &&
      (dir == -1 ==>
         e < |records| && IsCurrent(p) &&
         if remaining == 0 then !Packed(e) && p == Count(records, coarse, e)
         else Packed(e) && remaining <= records[e].num && p + remaining == Count(records, coarse, e) + records[e].num)
    }

    /**
     As much of `Valid` as a step needs. While a search skips packed changes, the current
     span stands for all of them.
     */
    ghost predicate Steppable()
      reads this
    {
      Valid() ||
      (Anchored() && remaining == 0 && changed &&
       ((dir == 1 && p + 1 == Count(records, coarse, e) &&
         (srcIndex + oldLength, destIndex + newLength, replIndex + newLength) == Before(records, e)) ||
        (dir == -1 && e < |records| && p == Count(records, coarse, e) &&
         (srcIndex, destIndex, replIndex) == Before(records, e))))
    }

    /**
     The boundary between spans that steps move away from: forward to the span after it,
     backward to the one before it. A step that turns around delivers its span again.
     */
    ghost function Cursor(): nat
      reads this
    {
      if dir > 0 then p + 1 else p
    }

    method UpdateNextIndexes()
      modifies `srcIndex, `replIndex, `destIndex
      ensures srcIndex == old(srcIndex) + oldLength && destIndex == old(destIndex) + newLength
      ensures replIndex == old(replIndex) + (if changed then newLength else 0)
    {
      srcIndex := srcIndex + oldLength;
      if changed {
        replIndex := replIndex + newLength;
      }
      destIndex := destIndex + newLength;
    }

    method UpdatePreviousIndexes()
      requires oldLength <= srcIndex && newLength <= destIndex && (changed ==> newLength <= replIndex)
      modifies `srcIndex, `replIndex, `destIndex
      ensures srcIndex == old(srcIndex) - oldLength && destIndex == old(destIndex) - newLength
      ensures replIndex == old(replIndex) - (if changed then newLength else 0)
    {
      srcIndex := srcIndex - oldLength;
      if changed {
        replIndex := replIndex - newLength;
      }
      destIndex := destIndex - newLength;
    }

    method NoNext() returns (more: bool)
      modifies `dir, `changed, `oldLength, `newLength
      ensures !more && dir == 0 && !changed && oldLength == 0 && newLength == 0
    {
      dir := 0;
      changed := false;
      oldLength, newLength := 0, 0;
      more := false;
    }

    /** Reads a length and leaves the unit index behind its trail units. */
    method ReadLengthHere(head: nat) returns (length: nat)
      requires CanRead(units, index, head)
      modifies `index
      ensures (length, index) == ReadLength(units, old(index), head)
    {
      if head < LENGTH_IN_1TRAIL {
        return head;
      } else if head < LENGTH_IN_2TRAIL {
        length := units[index] % 0x8000;
        index := index + 1;
      } else {
        var hi: int, lo: int := units[index], units[index + 1];
        length := head % 2 * 0x4000_0000 + hi % 0x8000 * 0x8000 + lo % 0x8000;
        index := index + 2;
      }
    }

    /** The three text positions agree with the records before `e`. */
    ghost predicate Counted()
      reads this
    {
      e <= |records| && (srcIndex, destIndex, replIndex) == Before(records, e)
    }

    /** The lengths of the current span are those of records `d` to `e - 1`. */
    ghost predicate Gathered(d: nat)
      reads this
    {
      Run(records, coarse, d, e) && Joint(records, d, e) == Span(changed, oldLength, newLength)
    }

    /** Reads adjacent unchanged records into one span. */
    method NextUnchanged()
      requires Anchored() && e < |records| && records[e].Unchanged?
      modifies `index, `changed, `oldLength, `newLength, `e
      ensures Anchored() && Gathered(old(e)) && !changed
    {
      hide Encode, EncodeRecord, HeadIndex, Spans, SpansTo, Joint, Run, AllUnchanged;
      ghost var d := e;
      assert AllUnchanged(records, d, d + 1) by { OneUnchanged(d); }
      UnchangedRun(records, coarse, d, d + 1);
      var u := UnitAhead();
      index := index + 1;
      e := e + 1;
      changed := false;
      oldLength := u + 1;
      while index < |units|
        invariant Positioned() && d < e && !changed && AllUnchanged(records, d, e) &&
                  oldLength == Joint(records, d, e).oldLen
      {
        u := UnitAhead();
        if u > MAX_UNCHANGED {
          break;
        }
        UnchangedGrows(records, d, e);
        index := index + 1;
        e := e + 1;
        oldLength := oldLength + (u + 1);
      }
      newLength := oldLength;
      UnchangedRun(records, coarse, d, e);
      CleanAfter(d);
    }

    /** The unit index rests between two records. */
    ghost predicate Positioned()
      reads this
    {
      ValidRecords(records) && units == Encode(records, |records|) && e <= |records| &&
      index == HeadIndex(records, e) &&
      (index < |units| <==> e < |records|) && (0 < index <==> 0 < e)
    }

    lemma OneUnchanged(d: nat)
      requires d < |records| && records[d].Unchanged?
      ensures AllUnchanged(records, d, d + 1)
    {
    }

    /** Unchanged text ends at a span boundary if what follows is no unchanged text. */
    lemma CleanAfter(d: nat)
      requires AllUnchanged(records, d, e) && (e < |records| ==> !records[e].Unchanged?)
      ensures Clean(records, coarse, e)
    {
    }

    /** The unit at the unit index tells what record is there, and if it has one unit only, where the next one is. */
    method UnitAhead() returns (u: Unit)
      requires ValidRecords(records) && units == Encode(records, |records|)
      requires e < |records| && index == HeadIndex(records, e)
      ensures index < |units| && u == units[index] && HeadOf(u, records[e])
      ensures u <= MAX_UNCHANGED <==> records[e].Unchanged?
      ensures u <= MAX_SHORT_CHANGE <==> !records[e].Long?
      ensures u <= MAX_UNCHANGED ==> u + 1 == records[e].n
      ensures HeadIndex(records, e + 1) <= |units| && (HeadIndex(records, e + 1) < |units| <==> e + 1 < |records|)
      ensures !records[e].Long? ==> HeadIndex(records, e + 1) == index + 1
    {
      hide Encode, EncodeRecord;
      UnitsOf(records, e);
      AtEnds(records, e + 1);
      u := units[index];
    }

    /** Reads the lengths behind the head unit `u` of long record `d`. */
    method ReadLengths(u: Unit, ghost d: nat) returns (m: nat, n: nat)
      requires ValidRecords(records) && units == Encode(records, |records|)
      requires d < |records| && records[d].Long? && HeadOf(u, records[d]) && index == HeadIndex(records, d) + 1
      modifies `index
      ensures m == records[d].oldLen && n == records[d].newLen && index == HeadIndex(records, d + 1)
    {
      hide Encode, EncodeRecord, ReadLength, CanRead;
      LengthsOf(records, d);
      m := ReadLengthHere(u / 0x40 % 0x40);
      n := ReadLengthHere(u % 0x40);
    }

    /** Reads all replacements of the change record `d` whose head unit is `u`. */
    method ReadWhole(u: Unit, ghost d: nat) returns (m: nat, n: nat)
      requires ValidRecords(records) && units == Encode(records, |records|)
      requires d < |records| && !records[d].Unchanged? && HeadOf(u, records[d]) && index == HeadIndex(records, d) + 1
      modifies `index
      ensures Span(true, m, n) == records[d].Whole() && index == HeadIndex(records, d + 1)
    {
      hide Encode, EncodeRecord;
      if u <= MAX_SHORT_CHANGE {
        UnitsOf(records, d);
        var num := u % 0x200 + 1;
        m := num * (u / 0x1000);
        n := num * (u / 0x200 % 8);
      } else {
        m, n := ReadLengths(u, d);
      }
    }

    /** Reads the changes that follow into the current coarse span. */
    method CombineNextChanges(ghost d: nat)
      requires ValidRecords(records) && units == Encode(records, |records|) && coarse && changed
      requires e == d + 1 <= |records| && index == HeadIndex(records, e) && Gathered(d) && !records[d].Unchanged?
      modifies `index, `oldLength, `newLength, `e
      ensures d < e <= |records| && index == HeadIndex(records, e) && Clean(records, coarse, e)
      ensures Gathered(d)
    {
      hide Encode, EncodeRecord, Spans, SpansTo;
      AtEnds(records, e);
      while index < |units|
        invariant d < e <= |records| && index == HeadIndex(records, e)
        invariant index < |units| <==> e < |records|
        invariant Run(records, coarse, d, e)
        invariant !records[e - 1].Unchanged?
        invariant oldLength == Joint(records, d, e).oldLen && newLength == Joint(records, d, e).newLen
      {
        UnitsOf(records, e);
        var u := units[index];
        if u <= MAX_UNCHANGED {
          break;
        }
        index := index + 1;
        var m, n := ReadWhole(u, e);
        e := e + 1;
        AtEnds(records, e);
        oldLength := oldLength + m;
        newLength := newLength + n;
        assert Joined(records, coarse, e - 1);
      }
    }

    /** Reads one change, or adjacent changes into one span if the iterator is coarse. */
    method NextChange()
      requires Anchored() && e < |records| && !records[e].Unchanged? && remaining == 0
      modifies `index, `remaining, `changed, `oldLength, `newLength, `e
      ensures Anchored() && changed
      ensures if Packed(old(e)) then
                e == old(e) + 1 && remaining == records[old(e)].num &&
                oldLength == records[old(e)].oldLen && newLength == records[old(e)].newLen
              else
                remaining == 0 && Gathered(old(e))
    {
      hide Encode, EncodeRecord, HeadIndex, Spans, SpansTo;
      ghost var d := e;
      var u := UnitAhead();
      index := index + 1;
      changed := true;
      if u <= MAX_SHORT_CHANGE && !coarse {
        oldLength := u / 0x1000;
        newLength := u / 0x200 % 8;
        var num := u % 0x200 + 1;
        if num > 1 {
          remaining := num;
        }
        e := e + 1;
        return;
      }
      oldLength, newLength := ReadWhole(u, d);
      e := e + 1;
      if coarse {
        CombineNextChanges(d);
      }
    }

    /** After a step forward the fields of the iterator are those of its span. */
    lemma CurrentSpan()
      requires Valid() && dir != -1
      ensures dir == 1 ==> p < |All()| && All()[p] == Span(changed, oldLength, newLength)
      ensures dir != 1 ==> dir == 0 && oldLength == 0 && newLength == 0
    {
    }

    /** A step that is not within a packed record starts at the boundary at `e`. */
    lemma CursorAtBoundary()
      requires Steppable() && remaining <= 1 && !(dir == -1 && remaining == 1)
      ensures Cursor() == Count(records, coarse, e) <= |All()|
      ensures Sums(All(), Cursor()) == Before(records, e)
      ensures e < |records| <==> Cursor() < |All()|
      ensures dir == 1 ==>
                (srcIndex + oldLength, destIndex + newLength, replIndex + (if changed then newLength else 0)) ==
                  Before(records, e)
      ensures dir != 1 ==> (srcIndex, destIndex, replIndex) == Before(records, e)
    {
      hide Encode, EncodeRecord, HeadIndex, Spans, SpansTo, Before;
      SumsAtBoundary(records, coarse, e);
    }

    /** What was gathered between two boundaries is the next span. */
    lemma GatheredIsSpan(d: nat)
      requires Anchored() && Clean(records, coarse, d) && Gathered(d)
      ensures Count(records, coarse, e) == Count(records, coarse, d) + 1
      ensures IsCurrent(Count(records, coarse, d))
      ensures !Packed(d) && !Packed(e - 1)
      ensures records[e - 1].Unchanged? == records[d].Unchanged?
    {
      hide Encode, EncodeRecord, HeadIndex, SpansTo, Before, Joint, Sums;
      RunSpan(records, coarse, d, e);
      assert d < e - 1 ==> Joined(records, coarse, e - 1);
      SumsAtBoundary(records, coarse, e);
      assert All()[..Count(records, coarse, e)][Count(records, coarse, d)] == Joint(records, d, e);
    }

    /**
     A step forward, from any state, leads to the upcoming span, skipping unchanged text on
     demand, or beyond the last span.
     */
    method Next(onlyChanges: bool, errorCode: ErrorCode) returns (more: bool)
      requires Steppable()
      modifies this
      ensures errorCode.Failure() ==> !more && unchanged(this)
      ensures !errorCode.Failure() ==>
                Valid() &&
                var q := old(Cursor());
                var q' := if onlyChanges && q < |All()| && !All()[q].changed then q + 1 else q;
                more == (q' < |All()|) && (if more then dir == 1 && p == q' else dir == 0 && p == |All()|)
    {
      hide Encode, EncodeRecord, HeadIndex, Spans, SpansTo, Before;
      if errorCode.Failure() {
        return false;
      }
      if dir > 0 {
        if remaining > 1 {
          ContinueOn();
          return true;
        }
        PassSpan();
      } else {
        if dir < 0 && remaining > 0 {
          TurnOn();
          return true;
        }
        CursorAtBoundary();
        dir := 1;
      }
      more := NextFromBoundary(onlyChanges);
    }

    /** Goes on by one change within a packed record. */
    method ContinueOn()
      requires Valid() && dir == 1 && 1 < remaining
      modifies `remaining, `p, `srcIndex, `replIndex, `destIndex
      ensures Valid() && dir == 1 && p == old(p) + 1 < |All()| && All()[p].changed
    {
      hide Encode, EncodeRecord, HeadIndex, Spans, SpansTo, Before;
      ShortBlock(records, e - 1);
      UpdateNextIndexes();
      p := p + 1;
      remaining := remaining - 1;
    }

    /** Goes past the current span, which is not one of several that are packed or is the last of them. */
    method PassSpan()
      requires Steppable() && dir == 1 && remaining <= 1
      modifies `remaining, `p, `srcIndex, `replIndex, `destIndex
      ensures Anchored() && Counted() && remaining == 0 && p == Count(records, coarse, e) == old(Cursor())
    {
      hide Encode, EncodeRecord, HeadIndex, Spans, SpansTo, Before;
      CursorAtBoundary();
      UpdateNextIndexes();
      p := p + 1;
      remaining := 0;
    }

    /** Turns around within a packed record, from previous() to next(). */
    method TurnOn()
      requires Valid() && dir == -1 && remaining > 0
      modifies `index, `e, `dir
      ensures Valid() && dir == 1 && p < |All()| && All()[p].changed
    {
      hide Encode, EncodeRecord, HeadIndex, Spans, SpansTo, Before, Sums;
      ShortBlock(records, e);
      UnitsOf(records, e);
      index := index + 1;
      e := e + 1;
      dir := 1;
    }

    /** Turns around within a packed record, from next() to previous(). */
    method TurnBack()
      requires Valid() && dir == 1 && remaining > 0
      modifies `index, `e, `dir
      ensures Valid() && dir == -1
    {
      hide Encode, EncodeRecord, HeadIndex, Spans, SpansTo, Before, Sums;
      ShortBlock(records, e - 1);
      UnitsOf(records, e - 1);
      index := index - 1;
      e := e - 1;
      dir := -1;
    }

    /** Reads the span that begins at the boundary at `e`. */
    method NextFromBoundary(onlyChanges: bool) returns (more: bool)
      requires Anchored() && Counted() && remaining == 0 && dir == 1 && p == Count(records, coarse, e)
      modifies this
      ensures Valid()
      ensures var q := old(p);
              var q' := if onlyChanges && q < |All()| && !All()[q].changed then q + 1 else q;
              more == (q' < |All()|) && (if more then dir == 1 && p == q' else dir == 0 && p == |All()|)
    {
      hide Encode, EncodeRecord, Spans, SpansTo, Before;
      AtEnds(records, e);
      SumsAtBoundary(records, coarse, e);
      if index >= |units| {
        more := NoNext();
        return;
      }
      UnitsOf(records, e);
      if units[index] <= MAX_UNCHANGED {
        ghost var d := e;
        NextUnchanged();
        GatheredIsSpan(d);
        if !onlyChanges {
          return true;
        }
        UpdateNextIndexes();
        p := p + 1;
        AtEnds(records, e);
        SumsAtBoundary(records, coarse, e);
        if index >= |units| {
          more := NoNext();
          return;
        }
      }
      ChangeFromBoundary();
      more := true;
    }

    /** Reads the change that begins at the boundary at `e`. */
    method ChangeFromBoundary()
      requires Anchored() && Counted() && remaining == 0 && dir == 1 && p == Count(records, coarse, e)
      requires e < |records| && !records[e].Unchanged?
      modifies this
      ensures Valid() && dir == 1 && p == old(p) < |All()| && All()[p].changed
    {
      hide Encode, EncodeRecord, Spans, SpansTo, Before;
      ghost var d := e;
      SumsAtBoundary(records, coarse, e);
      NextChange();
      if Packed(d) {
        ShortBlock(records, d);
      } else {
        GatheredIsSpan(d);
      }
    }

    /** The lengths of the current span are those of records `e` to `top - 1`. */
    ghost predicate GatheredBack(top: nat)
      reads this
    {
      Run(records, coarse, e, top) && Joint(records, e, top) == Span(changed, oldLength, newLength)
    }

    /** Reads adjacent unchanged records into one span, backwards. */
    method PreviousUnchanged()
      requires Anchored() && 0 < e && records[e - 1].Unchanged?
      modifies `index, `changed, `oldLength, `newLength, `e
      ensures Anchored() && GatheredBack(old(e)) && !changed
    {
      hide Encode, EncodeRecord, HeadIndex, Spans, SpansTo, Joint, Run, AllUnchanged;
      ghost var top := e;
      assert AllUnchanged(records, top - 1, top) by { OneUnchanged(top - 1); }
      UnchangedRun(records, coarse, top - 1, top);
      var u := UnitBehind();
      index := index - 1;
      e := e - 1;
      changed := false;
      oldLength := u + 1;
      while index > 0
        invariant Positioned() && e < top && !changed && AllUnchanged(records, e, top) &&
                  oldLength == Joint(records, e, top).oldLen
      {
        u := UnitBehind();
        if u > MAX_UNCHANGED {
          break;
        }
        UnchangedGrows(records, e, top);
        index := index - 1;
        e := e - 1;
        oldLength := oldLength + (u + 1);
      }
      newLength := oldLength;
      UnchangedRun(records, coarse, e, top);
      CleanBefore(top);
    }

    lemma CleanBefore(top: nat)
      requires AllUnchanged(records, e, top) && (0 < e ==> !records[e - 1].Unchanged?)
      ensures Clean(records, coarse, e)
    {
    }

    /** The last unit before the unit index tells whether unchanged text ends there, and how much of it. */
    method UnitBehind() returns (u: Unit)
      requires ValidRecords(records) && units == Encode(records, |records|)
      requires 0 < e <= |records| && index == HeadIndex(records, e)
      ensures 0 < index <= |units| && u == units[index - 1]
      ensures u <= MAX_UNCHANGED <==> records[e - 1].Unchanged?
      ensures u <= MAX_UNCHANGED ==> u + 1 == records[e - 1].n
      ensures u <= MAX_SHORT_CHANGE <==> !records[e - 1].Long?
      ensures !records[e - 1].Long? ==> HeadOf(u, records[e - 1]) && index - 1 == HeadIndex(records, e - 1)
      ensures 0 < HeadIndex(records, e - 1) <==> 0 < e - 1
      ensures HeadIndex(records, e - 1) < |units|
    {
      hide Encode, EncodeRecord;
      UnitsOf(records, e - 1);
      AtEnds(records, e - 1);
      u := units[index - 1];
    }

    /** Reads the lengths of long record `d`, whose head unit `u` is at the unit index, and returns to it. */
    method ReadLengthsBack(u: Unit, ghost d: nat) returns (m: nat, n: nat)
      requires ValidRecords(records) && units == Encode(records, |records|)
      requires d < |records| && records[d].Long? && HeadOf(u, records[d]) && index == HeadIndex(records, d)
      modifies `index
      ensures m == records[d].oldLen && n == records[d].newLen && index == old(index)
    {
      var headIndex := index;
      index := index + 1;
      m, n := ReadLengths(u, d);
      index := headIndex;
    }

    /** Reads all replacements of the change record `d` whose head unit `u` is at the unit index. */
    method ReadWholeBack(u: Unit, ghost d: nat) returns (m: nat, n: nat)
      requires ValidRecords(records) && units == Encode(records, |records|)
      requires d < |records| && !records[d].Unchanged? && HeadOf(u, records[d]) && index == HeadIndex(records, d)
      modifies `index
      ensures Span(true, m, n) == records[d].Whole() && index == old(index)
    {
      hide Encode, EncodeRecord;
      if u <= MAX_SHORT_CHANGE {
        var num := u % 0x200 + 1;
        m := u / 0x1000 * num;
        n := u / 0x200 % 8 * num;
      } else {
        m, n := ReadLengthsBack(u, d);
      }
    }

    /** Adds the preceding changes to the current coarse span. */
    method CombinePreviousChanges(ghost top: nat)
      requires ValidRecords(records) && units == Encode(records, |records|) && coarse && changed
      requires e + 1 == top <= |records| && index == HeadIndex(records, e) && GatheredBack(top) &&
               !records[e].Unchanged?
      modifies `index, `oldLength, `newLength, `e
      ensures e < top && index == HeadIndex(records, e) && Clean(records, coarse, e)
      ensures GatheredBack(top)
    {
      hide Encode, EncodeRecord, Spans, SpansTo;
      AtEnds(records, e);
      while index > 0
        invariant 0 <= e < top && index <= HeadIndex(records, e)
        invariant index < HeadIndex(records, e) ==>
                    0 < e && HeadIndex(records, e - 1) < index && !records[e - 1].Unchanged?
        invariant e == 0 ==> index == 0
        invariant index == 0 ==> e == 0
        invariant Run(records, coarse, e, top) && !records[e].Unchanged?
        invariant oldLength == Joint(records, e, top).oldLen && newLength == Joint(records, e, top).newLen
      {
        UnitsOf(records, e - 1);
        AtEnds(records, e - 1);
        var u := units[index - 1];
        if u <= MAX_UNCHANGED {
          break;
        }
        index := index - 1;
        if u <= 0x7fff {
          var m, n := ReadWholeBack(u, e - 1);
          oldLength := oldLength + m;
          newLength := newLength + n;
          e := e - 1;
          assert Joined(records, coarse, e + 1);
        }
      }
    }

    /** Reads the lengths of long record `d` from its last unit `u`, and returns to its head. */
    method ReadLastLong(u: Unit, ghost d: nat) returns (m: nat, n: nat)
      requires ValidRecords(records) && units == Encode(records, |records|)
      requires d < |records| && records[d].Long?
      requires index < |units| && index + 1 == HeadIndex(records, d + 1) && u == units[index]
      modifies `index
      ensures m == records[d].oldLen && n == records[d].newLen && index == HeadIndex(records, d)
    {
      hide Encode, EncodeRecord, LengthField;
      UnitsOf(records, d);
      if u <= 0x7fff {
        LengthsAlone(records, d);
        m := ReadLengthHere(u / 0x40 % 0x40);
        n := ReadLengthHere(u % 0x40);
      } else {
        var v := u;
        while v > 0x7fff
          invariant HeadIndex(records, d) <= index < HeadIndex(records, d + 1) && v == units[index]
          modifies `index
          decreases index
        {
          index := index - 1;
          v := units[index];
        }
        m, n := ReadLengthsBack(v, d);
      }
    }

    /** Reads one change, or adjacent changes into one span if the iterator is coarse, backwards. */
    method PreviousChange()
      requires Anchored() && 0 < e && !records[e - 1].Unchanged? && remaining == 0
      modifies `index, `remaining, `changed, `oldLength, `newLength, `e
      ensures Anchored() && changed && e < old(e)
      ensures if Packed(old(e) - 1) then
                e == old(e) - 1 && remaining == 1 &&
                oldLength == records[e].oldLen && newLength == records[e].newLen
              else
                remaining == 0 && GatheredBack(old(e))
    {
      hide Encode, EncodeRecord, HeadIndex, Spans, SpansTo, Trail;
      ghost var top := e;
      ghost var d := e - 1;
      var u := UnitBehind();
      index := index - 1;
      changed := true;
      if u <= MAX_SHORT_CHANGE {
        var oldLen, newLen, num := u / 0x1000, u / 0x200 % 8, u % 0x200 + 1;
        if coarse {
          oldLength := num * oldLen;
          newLength := num * newLen;
        } else {
          oldLength := oldLen;
          newLength := newLen;
          if num > 1 {
            remaining := 1;
          }
          e := d;
          return;
        }
      } else {
        oldLength, newLength := ReadLastLong(u, d);
      }
      e := d;
      if coarse {
        CombinePreviousChanges(top);
      }
    }

    /** What was gathered backwards between two boundaries is the previous span. */
    lemma GatheredBackIsSpan(top: nat)
      requires Anchored() && Clean(records, coarse, top) && GatheredBack(top)
      ensures Count(records, coarse, top) == Count(records, coarse, e) + 1 <= |All()|
      ensures IsCurrent(Count(records, coarse, e))
      ensures !Packed(e)
    {
      hide Encode, EncodeRecord, HeadIndex, SpansTo, Before, Joint, Sums;
      RunSpan(records, coarse, e, top);
      SumsAtBoundary(records, coarse, top);
      assert All()[..Count(records, coarse, top)][Count(records, coarse, e)] == Joint(records, e, top);
    }

    /** Goes back by one change within a packed record. */
    method ContinueBack()
      requires Valid() && dir == -1 && 0 < remaining < records[e].num
      modifies `remaining, `p, `srcIndex, `replIndex, `destIndex
      ensures Valid() && p == old(p) - 1
    {
      hide Encode, EncodeRecord, HeadIndex, Spans, SpansTo, Before;
      ShortBlock(records, e);
      remaining := remaining + 1;
      p := p - 1;
      UpdatePreviousIndexes();
    }

    /**
     A step backward, from any state, leads to the span before the cursor, or before the
     first span.
     */
    method Previous(errorCode: ErrorCode) returns (more: bool)
      requires Steppable()
      modifies this
      ensures errorCode.Failure() ==> !more && unchanged(this)
      ensures !errorCode.Failure() ==>
                Valid() &&
                var q := old(Cursor());
                more == (q > 0) && (if more then dir == -1 && p == q - 1 else dir == 0 && p == 0)
    {
      hide Encode, EncodeRecord, HeadIndex, Spans, SpansTo, Before;
      if errorCode.Failure() {
        return false;
      }
      if dir >= 0 {
        if dir > 0 {
          if remaining > 0 {
            TurnBack();
            return true;
          }
          PassSpan();
        } else {
          CursorAtBoundary();
        }
        dir := -1;
      }
      if remaining > 0 {
        var u := PackedUnit();
        if remaining <= u % 0x200 {
          ContinueBack();
          return true;
        }
        FirstOfPacked();
        remaining := 0;
      }
      SumsAtBoundary(records, coarse, e);
      more := PreviousFromBoundary();
    }

    /** The unit of a packed record, within which the iterator goes backward. */
    method PackedUnit() returns (u: Unit)
      requires Valid() && dir == -1 && 0 < remaining
      ensures index < |units| && u == units[index] && u % 0x200 + 1 == records[e].num
    {
      hide Encode, EncodeRecord, Spans, SpansTo, Before, Sums;
      UnitsOf(records, e);
      u := units[index];
    }

    /** The first change of a packed record begins at the boundary at `e`. */
    lemma FirstOfPacked()
      requires Valid() && dir == -1 && 0 < remaining == records[e].num
      ensures p == Count(records, coarse, e) && Counted()
    {
      hide Encode, EncodeRecord, HeadIndex, Spans, SpansTo, Before, Sums;
      SumsAtBoundary(records, coarse, e);
    }

    /** Reads the span that ends at the boundary at `e`. */
    method PreviousFromBoundary() returns (more: bool)
      requires Anchored() && Counted() && remaining == 0 && dir == -1 && p == Count(records, coarse, e)
      modifies this
      ensures Valid()
      ensures more == (old(p) > 0) && (if more then dir == -1 && p == old(p) - 1 else dir == 0 && p == 0)
    {
      hide Encode, EncodeRecord, SpansTo, Before;
      AtEnds(records, e);
      SumsAtBoundary(records, coarse, e);
      if index <= 0 {
        more := NoNext();
        return;
      }
      UnitsOf(records, e - 1);
      ReadBack();
      p := p - 1;
      UpdatePreviousIndexes();
      more := true;
    }

    /** Reads the span that ends at the boundary at `e`. */
    method ReadBack()
      requires Anchored() && Counted() && remaining == 0 && dir == -1 && p == Count(records, coarse, e) && 0 < e
      modifies `index, `remaining, `changed, `oldLength, `newLength, `e
      ensures Anchored() && e < |records| && 0 < p && IsCurrent(p - 1)
      ensures if Packed(e) then remaining == 1 && p == Count(records, coarse, e) + records[e].num
              else remaining == 0 && p - 1 == Count(records, coarse, e)
    {
      hide Encode, EncodeRecord, SpansTo, Before;
      UnitsOf(records, e - 1);
      ghost var top := e;
      if units[index - 1] <= MAX_UNCHANGED {
        PreviousUnchanged();
        GatheredBackIsSpan(top);
      } else {
        PreviousChange();
        if Packed(e) {
          ShortBlock(records, e);
        } else {
          GatheredBackIsSpan(top);
        }
      }
    }

    /** Where the current span begins in the old or the new text, and how long it is there. */
    function SpanStart(findSource: bool): nat
      reads this
    {
      if findSource then srcIndex else destIndex
    }

    function SpanLength(findSource: bool): nat
      reads this
    {
      if findSource then oldLength else newLength
    }

    /** The remaining changes of a packed record are equal to the current one. */
    lemma PackedAhead()
      requires Valid() && dir == 1 && 0 < remaining
      ensures changed && p + remaining == Count(records, coarse, e) <= |All()|
      ensures forall k :: p <= k < p + remaining ==> All()[k] == Span(true, oldLength, newLength)
    {
      hide Encode, EncodeRecord, HeadIndex, SpansTo, Sums;
      ShortBlock(records, e - 1);
    }

    /** The changes of a packed record before the current one are equal to it. */
    lemma PackedBehind()
      requires Valid() && dir == -1 && 0 < remaining
      ensures remaining <= records[e].num && changed
      ensures p == Count(records, coarse, e) + (records[e].num - remaining)
      ensures forall k :: Count(records, coarse, e) <= k <= p < |All()| ==> All()[k] == Span(true, oldLength, newLength)
    {
      hide Encode, EncodeRecord, HeadIndex, SpansTo, Sums;
      ShortBlock(records, e);
    }

    /** There are `n` more changes of a packed record before the current one. */
    ghost predicate Room(n: nat)
      reads this
    {
      Valid() && dir == -1 && 0 < remaining && remaining + n <= records[e].num
    }

    /** The text positions `n` equal changes before the current one. */
    lemma PositionsBehind(n: nat)
      requires Room(n)
      ensures changed && n <= p < |All()| && All()[p - n] == Span(true, oldLength, newLength)
      ensures n * oldLength <= srcIndex && n * newLength <= destIndex && n * newLength <= replIndex
      ensures Sums(All(), p - n) == (srcIndex - n * oldLength, destIndex - n * newLength, replIndex - n * newLength)
    {
      PackedBehind();
      assert At(p) && IsCurrent(p);
      assert Count(records, coarse, e) <= p - n;
      hide Valid, Room, Spans, Sums, Count;
      EqualStepsBack(All(), p, n, Span(true, oldLength, newLength));
    }

    /** Moves the text positions back over `n` of the equal changes of a packed record. */
    method JumpBack(n: nat)
      requires Room(n)
      modifies `srcIndex, `replIndex, `destIndex, `p
      ensures p == old(p) - n && At(p) && IsCurrent(p) && changed
      ensures srcIndex == old(srcIndex) - n * oldLength && destIndex == old(destIndex) - n * newLength
    {
      hide Valid, Room, Spans, Sums;
      PositionsBehind(n);
      srcIndex := srcIndex - n * oldLength;
      replIndex := replIndex - n * newLength;
      destIndex := destIndex - n * newLength;
      p := p - n;
    }

    /** Moves the text positions on over `n` of the equal changes of a packed record. */
    method JumpOn(n: nat)
      requires Valid() && dir == 1 && n < remaining
      modifies `srcIndex, `replIndex, `destIndex, `p
      ensures p == old(p) + n && At(p) && IsCurrent(p) && changed
      ensures srcIndex == old(srcIndex) + n * oldLength && destIndex == old(destIndex) + n * newLength
    {
      PackedAhead();
      assert At(p) && IsCurrent(p);
      hide Valid, Spans, Sums, Count, Moved;
      EqualSteps(All(), p, n, Span(true, oldLength, newLength));
      srcIndex := srcIndex + n * oldLength;
      replIndex := replIndex + n * newLength;
      destIndex := destIndex + n * newLength;
      p := p + n;
    }

    /** The remaining changes of a packed record, taken together, end at the boundary at `e`. */
    lemma WidenedEnds()
      requires Valid() && dir == 1 && 1 < remaining
      ensures changed && p + remaining == Count(records, coarse, e) <= |All()|
      ensures Before(records, e) == Moved((srcIndex, destIndex, replIndex), remaining, Span(true, oldLength, newLength))
    {
      PackedAhead();
      SumsAtBoundary(records, coarse, e);
      assert At(p);
      hide Valid, Spans, SpansTo, Sums, Before, Count, Moved;
      EqualSteps(All(), p, remaining, Span(true, oldLength, newLength));
    }

    /** Makes the current span stand for all remaining changes of a packed record. */
    method WidenToAll()
      requires Valid() && dir == 1 && 1 < remaining
      modifies `oldLength, `newLength, `remaining, `p
      ensures Steppable() && remaining == 0 && dir == 1 && old(p) < p < |All()|
      ensures Start(All(), p + 1, true) == old(srcIndex) + old(remaining) * old(oldLength)
      ensures Start(All(), p + 1, false) == old(destIndex) + old(remaining) * old(newLength)
    {
      hide Encode, EncodeRecord, HeadIndex, Spans, SpansTo, Before, Count, Clean, Moved;
      WidenedEnds();
      SumsAtBoundary(records, coarse, e);
      p := p + remaining - 1;
      oldLength := remaining * oldLength;
      newLength := remaining * newLength;
      remaining := 0;
    }

    /** Within a packed record: skips back to the change that contains `i`, or before all of them. */
    method SkipBack(i: nat, findSource: bool) returns (found: bool)
      requires Valid() && dir == -1 && i < SpanStart(findSource)
      modifies this
      ensures dir == -1
      ensures found ==> Valid() && Holds(All(), p, i, findSource)
      ensures !found ==> Steppable() && At(p) && p <= old(p) && i < Start(All(), p, findSource)
    {
      hide Encode, EncodeRecord, HeadIndex, Spans, SpansTo, Before;
      found := false;
      if remaining > 0 {
        var spanStart, spanLength := SpanStart(findSource), SpanLength(findSource);
        var u := PackedUnit();
        var num := u % 0x200 + 1 - remaining;
        var len := num * spanLength;
        if i >= spanStart - len {
          StepsBack(spanStart, i, spanLength, num);
          var n := (spanStart - i - 1) / spanLength + 1;
          JumpBack(n);
          remaining := remaining + n;
          return true;
        }
        JumpBack(num);
        remaining := 0;
        SumsAtBoundary(records, coarse, e);
      }
    }

    /** Within a packed record: skips on to the change that contains `i`, or to the last of them. */
    method SkipOn(i: nat, findSource: bool) returns (found: bool)
      requires Valid() && dir == 1 && SpanStart(findSource) + SpanLength(findSource) <= i
      modifies this
      ensures dir == 1
      ensures found ==> Valid() && Holds(All(), p, i, findSource)
      ensures !found ==> Steppable() && remaining <= 1 && old(p) <= p < |All()| && Start(All(), p + 1, findSource) <= i
    {
      hide Encode, EncodeRecord, HeadIndex, Spans, SpansTo, Before, SumOld, SumNew, SumRepl;
      found := false;
      StartAt(All(), p, findSource);
      if remaining > 1 {
        var spanStart, spanLength := SpanStart(findSource), SpanLength(findSource);
        var len := remaining * spanLength;
        if i < spanStart + len {
          StepsOn(spanStart, i, spanLength, remaining);
          var n := (i - spanStart) / spanLength;
          JumpOn(n);
          remaining := remaining - n;
          StartAt(All(), p, findSource);
          return true;
        }
        WidenToAll();
      }
    }

    /** The text positions of the iterator are the starts of its span. */
    lemma CurrentStart(findSource: bool)
      requires Valid()
      ensures SpanStart(findSource) == Start(All(), p, findSource)
      ensures dir != 0 ==>
                p < |All()| && SpanStart(findSource) + SpanLength(findSource) == Start(All(), p + 1, findSource)
      ensures dir == 0 ==> SpanLength(findSource) == 0 && (p == 0 || p == |All()|)
    {
      hide Spans;
      if dir != 0 {
        StartAt(All(), p, findSource);
      }
    }

    /** Steps backward until the current span contains `i`. */
    method SearchBackwards(i: nat, findSource: bool, errorCode: ErrorCode)
      requires Valid() && !errorCode.Failure() && i < SpanStart(findSource)
      modifies this
      ensures Valid() && dir == -1 && Holds(All(), p, i, findSource)
    {
      hide Spans, SumOld, SumNew, SumRepl, Anchored, At, IsCurrent, Packed, Sums;
      CurrentStart(findSource);
      if dir > 0 {
        StartMonotone(All(), p, p + 1, findSource);
      }
      StartMonotone(All(), 0, 0, findSource);
      while true
        invariant Steppable() && 0 < Cursor() <= |All()|
        invariant i < Start(All(), Cursor(), findSource)
        decreases Cursor()
      {
        var hasPrevious := Previous(errorCode);
        assert hasPrevious;
        CurrentStart(findSource);
        if i >= SpanStart(findSource) {
          return;
        }
        var found := SkipBack(i, findSource);
        if found {
          return;
        }
      }
    }

    /** Steps forward until the current span contains `i`, or to the end. */
    method SearchForwards(i: nat, findSource: bool, errorCode: ErrorCode) returns (where: int)
      requires Valid() && !errorCode.Failure()
      requires Cursor() <= |All()| && Start(All(), Cursor(), findSource) <= i
      modifies this
      ensures Valid()
      ensures where == 0 ==> dir == 1 && Holds(All(), p, i, findSource)
      ensures where != 0 ==> where == 1 && dir == 0 && p == |All()| && Total(All(), findSource) <= i
    {
      hide Spans, SumOld, SumNew, SumRepl, Anchored, At, IsCurrent, Packed, Sums;
      var more := Next(false, errorCode);
      while more
        invariant Valid() && p <= |All()| && (if more then dir == 1 else dir == 0 && p == |All()|)
        invariant Start(All(), p, findSource) <= i
        decreases more, |All()| - p
      {
        CurrentStart(findSource);
        if i < SpanStart(findSource) + SpanLength(findSource) {
          return 0;
        }
        var found := SkipOn(i, findSource);
        if found {
          return 0;
        }
        more := Next(false, errorCode);
      }
      return 1;
    }

    /**
     Moves to the span that contains index `i` of the chosen text: -1 for an error or an index
     before the text, 0 if found, 1 if the index is at or beyond the end. From every state the
     search ends at the same span. Only the direction of the iterator remembers where the
     search came from: it decides whether the next step forward delivers the found span again.
     */
    method FindIndex(i: int, findSource: bool, errorCode: ErrorCode) returns (where: int)
      requires Valid()
      modifies this
      ensures Valid()
      ensures errorCode.Failure() || i < 0 ==> where == -1 && unchanged(this)
      ensures !errorCode.Failure() && 0 <= i < Total(All(), findSource) ==>
                where == 0 && dir != 0 && p == SpanAt(All(), i, findSource) &&
                (dir == -1 <==>
                 if i < old(SpanStart(findSource)) then i >= old(SpanStart(findSource)) / 2
                 else old(dir) == -1 && i < old(SpanStart(findSource)) + old(SpanLength(findSource)))
      ensures !errorCode.Failure() && Total(All(), findSource) <= i ==>
                where == 1 && dir == 0 && p == |All()|
    {
      hide Spans, SumOld, SumNew, SumRepl, Steppable, Anchored, At, IsCurrent, Packed, Sums, Holds;
      if errorCode.Failure() || i < 0 {
        return -1;
      }
      where := 0;
      CurrentStart(findSource);
      var spanStart, spanLength := SpanStart(findSource), SpanLength(findSource);
      if i < spanStart {
        if i >= spanStart / 2 {
          SearchBackwards(i, findSource, errorCode);
          HoldsIsSpanAt(All(), p, i, findSource);
          return;
        }
        Rewind();
      } else if i < spanStart + spanLength {
        CurrentHolds(i, findSource);
        return;
      }
      CursorStart(findSource);
      where := SearchForwards(i, findSource, errorCode);
      if where == 0 {
        HoldsIsSpanAt(All(), p, i, findSource);
      }
    }

    lemma CurrentHolds(i: nat, findSource: bool)
      requires Valid() && SpanStart(findSource) <= i < SpanStart(findSource) + SpanLength(findSource)
      ensures dir != 0 && i < Total(All(), findSource) && p == SpanAt(All(), i, findSource)
    {
      CurrentStart(findSource);
      HoldsIsSpanAt(All(), p, i, findSource);
    }

    /** Where the text up to the cursor ends. */
    lemma CursorStart(findSource: bool)
      requires Valid()
      ensures Cursor() <= |All()|
      ensures Start(All(), Cursor(), findSource) <= SpanStart(findSource) + SpanLength(findSource)
    {
      CurrentStart(findSource);
    }

    /** Goes back before the first span. */
    method Rewind()
      requires Valid()
      modifies this
      ensures Valid() && dir == 0 && p == 0
      ensures srcIndex == 0 && replIndex == 0 && destIndex == 0 && oldLength == 0 && newLength == 0
    {
      hide Encode, EncodeRecord, Spans, SpansTo;
      AtEnds(records, 0);
      dir := 0;
      index, remaining, oldLength, newLength, srcIndex, replIndex, destIndex := 0, 0, 0, 0, 0, 0, 0;
      e, p := 0, 0;
    }

    /** The destination index for a source index does not depend on the state of the iterator. */
    method DestinationIndexFromSourceIndex(i: int, errorCode: ErrorCode) returns (r: nat)
      requires Valid()
      modifies this
      ensures Valid()
      ensures r == if errorCode.Failure() then 0 else MapIndex(All(), i, true)
    {
      hide Spans;
      var where := FindIndex(i, true, errorCode);
      if where < 0 {
        return 0;
      }
      if where > 0 || i == srcIndex {
        return destIndex;
      }
      if changed {
        return destIndex + newLength;
      } else {
        return destIndex + (i - srcIndex);
      }
    }

    /** The source index for a destination index does not depend on the state of the iterator. */
    method SourceIndexFromDestinationIndex(i: int, errorCode: ErrorCode) returns (r: nat)
      requires Valid()
      modifies this
      ensures Valid()
      ensures r == if errorCode.Failure() then 0 else MapIndex(All(), i, false)
    {
      hide Spans;
      var where := FindIndex(i, false, errorCode);
      if where < 0 {
        return 0;
      }
      if where > 0 || i == destIndex {
        return srcIndex;
      }
      if changed {
        return srcIndex + oldLength;
      } else {
        return srcIndex + (i - destIndex);
      }
    }
  }
}
