/**
 The edit log itself, `Edits` in `icu/common/edits.cpp`: recording, and the composition of
 two logs.
 */
module Edits {
  import opened Common
  import opened EditSpans
  import opened EditRecords
  import opened EditIterator
  import opened EditMerge
  import opened EditCuts
  import opened ErrorCodes

  const INT32_MIN := -0x8000_0000
  const STACK_CAPACITY := 100

  /** What is left of the current spans of two logs that are merged, and the change that is being accumulated. */
  datatype Lengths = Lengths(aLength: nat, ab_bLength: nat, bc_bLength: nat, cLength: nat, pendingA: nat, pendingC: nat)

  /** What a turn of the merge has come to: fetch again, go on with both spans, or one or both logs are done. */
  datatype Turn = Again | Ready | Done | Differ

  class Edits {
    var store: array<Unit>
    var onStack: bool  // whether `store` is still the initial one
    var length: nat
    var delta: int
    var numChanges: nat
    var errorCode: ErrorCode

    ghost var records: seq<Record>

    /** The units of the log are the encoding of its records. */
    ghost predicate Encoded()
      reads this, store
    {
      length <= store.Length <= INT32_MAX &&
      (if onStack then store.Length == STACK_CAPACITY else store.Length >= 2000) &&
      ValidRecords(records) && store[..length] == Encode(records, |records|)
    }

    ghost predicate Valid()
      reads this, store
    {
      Encoded() && INT32_MIN <= delta <= INT32_MAX &&
      (!errorCode.Failure() ==>
         delta == Total(Fine(), false) - Total(Fine(), true) && numChanges == |Changes(Fine())|)
    }

    /** The recorded edits, one by one, with adjacent unchanged text merged. */
    ghost function Fine(): seq<Span>
      reads this
    {
      Spans(records, false)
    }

    constructor ()
      ensures Valid() && fresh(store)
      ensures Fine() == [] && delta == 0 && numChanges == 0 && !errorCode.Failure()
    {
      store := new Unit[STACK_CAPACITY];
      onStack := true;
      length, delta, numChanges := 0, 0, 0;
      errorCode := ZeroError;
      records := [];
      new;
      assert store[..length] == [];
      assert Changes(Fine()) == {};
    }

    method Reset()
      requires Valid()
      modifies this
      ensures Valid() && store == old(store)
      ensures Fine() == [] && delta == 0 && numChanges == 0 && !errorCode.Failure()
    {
      length, delta, numChanges := 0, 0, 0;
      errorCode := ZeroError;
      records := [];
      assert store[..length] == [];
      assert Changes(Fine()) == {};
    }

    /** How much longer the new text is than the old one. */
    function LengthDelta(): (r: int)
      reads this, store
      requires Valid()
      ensures !errorCode.Failure() ==> r == Total(Fine(), false) - Total(Fine(), true)
    {
      delta
    }

    /** Without an error, there are changes if and only if some span is one. */
    predicate HasChanges()
      reads this, store
      requires Valid()
      ensures !errorCode.Failure() ==> (HasChanges() <==> exists k :: 0 <= k < |Fine()| && Fine()[k].changed)
    {
      CountsAnyChange(Fine());
      numChanges != 0
    }

    /** Without an error, each recorded change is counted once. */
    function NumberOfChanges(): (r: nat)
      reads this, store
      requires Valid()
      ensures !errorCode.Failure() ==> r == |Changes(Fine())|
    {
      numChanges
    }

    /** Moves the log to a larger array, unless there is no larger one. */
    method GrowArray() returns (grown: bool)
      requires Encoded()
      modifies `store, `onStack, `errorCode
      ensures Encoded()
      ensures grown ==> fresh(store) && store.Length >= length + 5 && errorCode == old(errorCode)
      ensures !grown ==> store == old(store) && errorCode == IndexOutOfBoundsError && store.Length + 5 > INT32_MAX
    {
      var newCapacity: nat;
      if onStack {
        newCapacity := 2000;
      } else if store.Length == INT32_MAX {
        errorCode := IndexOutOfBoundsError;
        return false;
      } else if store.Length >= INT32_MAX / 2 {
        newCapacity := INT32_MAX;
      } else {
        newCapacity := 2 * store.Length;
      }
      if newCapacity - store.Length < 5 {
        errorCode := IndexOutOfBoundsError;
        return false;
      }
      var newArray := new Unit[newCapacity];
      forall k | 0 <= k < length {
        newArray[k] := store[k];
      }
      assert newArray[..length] == store[..length];
      store := newArray;
      onStack := false;
      grown := true;
    }

    /** Appends one unit, if there is or can be made room for it. */
    method Append(r: Unit) returns (done: bool)
      requires Encoded()
      modifies `store, `onStack, `errorCode, `length, store
      ensures store == old(store) || fresh(store)
      ensures length <= store.Length <= INT32_MAX &&
              (if onStack then store.Length == STACK_CAPACITY else store.Length >= 2000)
      ensures done ==> store[..length] == old(store[..length]) + [r] && errorCode == old(errorCode)
      ensures !done ==> store[..length] == old(store[..length]) && Full()
      ensures length >= old(length)
    {
      done := length < store.Length;
      if !done {
        done := GrowArray();
      }
      if done {
        store[length] := r;
        length := length + 1;
      }
    }

    /** The log cannot be extended any further. */
    ghost predicate Full()
      reads this
    {
      errorCode == IndexOutOfBoundsError && length + 10 > INT32_MAX
    }

    function LastUnit(): Unit
      reads this, store
      requires length <= store.Length
    {
      if length > 0 then store[length - 1] else 0xffff
    }

    /** Appends one record that fits into one unit. */
    method AppendRecord(u: Unit, ghost r: Record)
      requires Encoded() && r.Valid() && EncodeRecord(r) == [u]
      modifies `store, `onStack, `errorCode, `length, `records, store
      ensures Encoded() && (store == old(store) || fresh(store))
      ensures length >= old(length)
      ensures (errorCode == old(errorCode) && records == old(records) + [r]) || (Full() && records == old(records))
    {
      hide EncodeRecord, HeadOf;
      var done := Append(u);
      if done {
        EncodeSnoc(records, r);
        records := records + [r];
      }
    }

    /** Replaces the last record, where both it and its replacement fit into one unit. */
    method ReplaceLast(u: Unit, ghost r: Record)
      requires Encoded() && records != [] && |EncodeRecord(records[|records| - 1])| == 1
      requires r.Valid() && EncodeRecord(r) == [u]
      modifies `records, store
      ensures Encoded() && records == old(records[..|records| - 1]) + [r]
    {
      hide EncodeRecord, HeadOf;
      ghost var n := |records| - 1;
      store[length - 1] := u;
      EncodeOfPrefix(records[..n] + [r], records, n);
      records := records[..n] + [r];
    }

    /** The last unit tells whether the last record is one that can be extended. */
    lemma LastUnitTells()
      requires Encoded()
      ensures records == [] <==> length == 0
      ensures records != [] ==>
                var r := records[|records| - 1];
                if LastUnit() <= MAX_SHORT_CHANGE then HeadOf(LastUnit(), r) && |EncodeRecord(r)| == 1 && !r.Long?
                else r.Long?
    {
      hide EncodeRecord, HeadOf;
      AtEnds(records, |records|);
      if records != [] {
        UnitsOf(records, |records| - 1);
        RecordAt(records, |records| - 1);
        HeadUnitKind(records[|records| - 1], Encode(records, |records|)[HeadIndex(records, |records| - 1)]);
      }
    }

    /** Appends a record of unchanged text. */
    method AppendUnchanged(n: nat)
      requires Encoded() && 1 <= n <= MAX_UNCHANGED_LENGTH
      modifies `store, `onStack, `errorCode, `length, `records, store
      ensures Encoded() && (store == old(store) || fresh(store))
      ensures length >= old(length)
      ensures (errorCode == old(errorCode) && Fine() == PushUnchanged(old(Fine()), n)) || Full()
    {
      hide Spans;
      SpansSnoc(records, Unchanged(n), false);
      AppendRecord(n - 1, Unchanged(n));
    }

    /** Extends the unchanged text of the last record. */
    method ExtendUnchanged(last: Unit, n: nat)
      requires Encoded() && records != [] && last == LastUnit() && last + n <= MAX_UNCHANGED
      modifies `records, store
      ensures Encoded() && Fine() == PushUnchanged(old(Fine()), n)
    {
      hide Spans, Encode, EncodeRecord, PushUnchanged, SpansTo;
      UnchangedUnit(last + 1 + n);
      LastUnitTells();
      ExtendUnchangedSpans(records, last + 1, n);
      ReplaceLast(last + n, Unchanged(last + 1 + n));
    }

    /** Records unchanged text; what comes after unchanged text becomes one span with it. */
    method AddUnchanged(unchangedLength: int)
      requires Valid()
      modifies this, store
      ensures Valid() && (store == old(store) || fresh(store)) && length >= old(length)
      ensures delta == old(delta) && numChanges == old(numChanges)
      ensures old(errorCode).Failure() || unchangedLength <= 0 ==> records == old(records)
      ensures old(errorCode).Failure() || unchangedLength == 0 ==> errorCode == old(errorCode)
      ensures !old(errorCode).Failure() && unchangedLength < 0 ==> errorCode == IllegalArgumentError
      ensures !old(errorCode).Failure() && 0 < unchangedLength ==>
                Full() ||
                (!errorCode.Failure() &&
                 Fine() == Push(old(Fine()), Span(false, unchangedLength, unchangedLength), false))
    {
      hide Spans, Push, Encode, Changes;
      if errorCode.Failure() || unchangedLength == 0 {
        return;
      }
      if unchangedLength < 0 {
        errorCode := IllegalArgumentError;
        return;
      }
      ghost var goal := PushUnchanged(Fine(), unchangedLength);
      PushUnchangedSums(Fine(), unchangedLength);
      PushUnchangedChanges(Fine(), unchangedLength);
      var todo: nat := unchangedLength;
      var last := LastUnit();
      LastUnitTells();
      if last < MAX_UNCHANGED {
        var room := MAX_UNCHANGED - last;
        if room >= todo {
          ExtendUnchanged(last, todo);
          return;
        }
        PushUnchangedTwice(Fine(), room, todo - room);
        ExtendUnchanged(last, room);
        todo := todo - room;
      }
      while todo >= MAX_UNCHANGED_LENGTH
        invariant Encoded() && (store == old(store) || fresh(store)) && length >= old(length)
        invariant delta == old(delta) && numChanges == old(numChanges)
        invariant Full() || (!errorCode.Failure() && PushUnchanged(Fine(), todo) == goal)
      {
        PushUnchangedTwice(Fine(), MAX_UNCHANGED_LENGTH, todo - MAX_UNCHANGED_LENGTH);
        AppendUnchanged(MAX_UNCHANGED_LENGTH);
        todo := todo - MAX_UNCHANGED_LENGTH;
      }
      if todo > 0 {
        AppendUnchanged(todo);
      }
    }

    /** Writes the trail units of a length behind the log and returns its field for the head unit. */
    method WriteTrail(at: nat, n: nat) returns (field: nat, limit: nat)
      requires at + 2 <= store.Length && n <= INT32_MAX
      modifies store
      ensures field == LengthField(n) < 0x40 && at <= limit <= at + 2 && store[at..limit] == Trail(n)
      ensures store[..at] == old(store[..at])
    {
      limit := at;
      if n < LENGTH_IN_1TRAIL {
        field := n;
      } else if n <= 0x7fff {
        field := LENGTH_IN_1TRAIL;
        store[limit] := 0x8000 + n;
        limit := limit + 1;
      } else {
        field := LENGTH_IN_2TRAIL + n / 0x4000_0000;
        store[limit] := 0x8000 + n / 0x8000 % 0x8000;
        store[limit + 1] := 0x8000 + n % 0x8000;
        limit := limit + 2;
      }
    }

    /** Writes a long record with its trail units behind the log. */
    method WriteLong(oldLength: nat, newLength: nat) returns (limit: nat)
      requires length + 5 <= store.Length && Long(oldLength, newLength).Valid()
      modifies store
      ensures length <= limit <= store.Length
      ensures store[..limit] == old(store[..length]) + EncodeRecord(Long(oldLength, newLength))
    {
      hide Trail, LengthField, EncodeRecord;
      var oldField, mid := WriteTrail(length + 1, oldLength);
      ghost var withOld := store[..mid];
      assert withOld[length + 1..] == Trail(oldLength);
      var newField, end := WriteTrail(mid, newLength);
      limit := end;
      store[length] := 0x7000 + oldField * 0x40 + newField;
      assert store[..length] == old(store[..length + 1])[..length];
      assert store[length + 1..mid] == withOld[length + 1..];
      LongCode(store[..], length, mid, limit, oldLength, newLength);
    }

    /** Appends a long record with its trail units. */
    method AppendLong(oldLength: nat, newLength: nat)
      requires Encoded() && Long(oldLength, newLength).Valid()
      modifies `store, `onStack, `errorCode, `length, `records, store
      ensures Encoded() && (store == old(store) || fresh(store)) && length >= old(length)
      ensures (errorCode == old(errorCode) && records == old(records) + [Long(oldLength, newLength)]) ||
              (Full() && records == old(records))
    {
      hide Encode, EncodeRecord;
      if oldLength < LENGTH_IN_1TRAIL && newLength < LENGTH_IN_1TRAIL {
        AppendHeadOnly(0x7000 + oldLength * 0x40 + newLength, oldLength, newLength);
        return;
      }
      if store.Length - length < 5 {
        var grown := GrowArray();
        if !grown {
          return;
        }
      }
      var limit := WriteLong(oldLength, newLength);
      EncodeSnoc(records, Long(oldLength, newLength));
      length := limit;
      records := records + [Long(oldLength, newLength)];
    }

    method AppendHeadOnly(head: Unit, oldLength: nat, newLength: nat)
      requires Encoded() && Long(oldLength, newLength).Valid()
      requires oldLength < LENGTH_IN_1TRAIL && newLength < LENGTH_IN_1TRAIL &&
               head == 0x7000 + oldLength * 0x40 + newLength
      modifies `store, `onStack, `errorCode, `length, `records, store
      ensures Encoded() && (store == old(store) || fresh(store)) && length >= old(length)
      ensures (errorCode == old(errorCode) && records == old(records) + [Long(oldLength, newLength)]) ||
              (Full() && records == old(records))
    {
      assert EncodeRecord(Long(oldLength, newLength)) == [head];
      hide Encode, EncodeRecord;
      AppendRecord(head, Long(oldLength, newLength));
    }

    /** Appends a short replacement, packing it into the last unit if that holds equal ones. */
    method AppendShort(oldLength: nat, newLength: nat)
      requires Encoded() && Short(oldLength, newLength, 1).Valid()
      modifies `store, `onStack, `errorCode, `length, `records, store
      ensures Encoded() && (store == old(store) || fresh(store)) && length >= old(length)
      ensures (errorCode == old(errorCode) && Fine() == old(Fine()) + [Span(true, oldLength, newLength)]) || Full()
    {
      hide Spans, Encode, EncodeRecord;
      var u := oldLength * 0x1000 + newLength * 0x200;
      var last := LastUnit();
      LastUnitTells();
      if MAX_UNCHANGED < last < MAX_SHORT_CHANGE && last - last % 0x200 == u && last % 0x200 < SHORT_CHANGE_NUM_MASK {
        ghost var num := last % 0x200 + 1;
        ShortUnit(oldLength, newLength, num + 1);
        SameShort(records[|records| - 1], last, oldLength, newLength);
        ExtendShortSpans(records, oldLength, newLength, num);
        ReplaceLast(last + 1, Short(oldLength, newLength, num + 1));
        return;
      }
      ShortUnit(oldLength, newLength, 1);
      AppendChangeSpans(records, Short(oldLength, newLength, 1));
      AppendRecord(u, Short(oldLength, newLength, 1));
    }

    /**
     Records a replacement, or nothing if both lengths are 0. The change is counted even where
     the difference in lengths overflows and the change itself is not recorded.
     */
    method AddReplace(oldLength: int, newLength: int)
      requires Valid() && INT32_MIN <= oldLength <= INT32_MAX && INT32_MIN <= newLength <= INT32_MAX
      modifies this, store
      ensures Valid() && (store == old(store) || fresh(store)) && length >= old(length)
      ensures old(errorCode).Failure() || (oldLength == 0 && newLength == 0) ==>
                Fine() == old(Fine()) && errorCode == old(errorCode) && delta == old(delta) &&
                numChanges == old(numChanges)
      ensures !old(errorCode).Failure() && (oldLength < 0 || newLength < 0) ==>
                Fine() == old(Fine()) && errorCode == IllegalArgumentError && delta == old(delta) &&
                numChanges == old(numChanges)
      ensures !old(errorCode).Failure() && 0 <= oldLength && 0 <= newLength && 0 < oldLength + newLength ==>
                numChanges == old(numChanges) + 1 &&
                if INT32_MIN <= old(delta) + newLength - oldLength <= INT32_MAX then
                  delta == old(delta) + newLength - oldLength &&
                  (Full() || (!errorCode.Failure() && Fine() == old(Fine()) + [Span(true, oldLength, newLength)]))
                else
                  delta == old(delta) && Fine() == old(Fine()) && errorCode == IndexOutOfBoundsError
    {
      hide Spans, Encode, EncodeRecord, Changes;
      if errorCode.Failure() {
        return;
      }
      if oldLength < 0 || newLength < 0 {
        errorCode := IllegalArgumentError;
        return;
      }
      if oldLength == 0 && newLength == 0 {
        return;
      }
      numChanges := numChanges + 1;
      var newDelta := newLength - oldLength;
      if newDelta != 0 {
        if (newDelta > 0 && delta >= 0 && newDelta > INT32_MAX - delta) ||
           (newDelta < 0 && delta < 0 && newDelta < INT32_MIN - delta)
        {
          errorCode := IndexOutOfBoundsError;
          return;
        }
        delta := delta + newDelta;
      }
      AppendTotals(Fine(), Span(true, oldLength, newLength));
      ChangesAppend(Fine(), Span(true, oldLength, newLength));
      if 0 < oldLength <= MAX_SHORT_CHANGE_OLD_LENGTH && newLength <= MAX_SHORT_CHANGE_NEW_LENGTH {
        AppendShort(oldLength, newLength);
      } else {
        AppendChangeSpans(records, Long(oldLength, newLength));
        AppendLong(oldLength, newLength);
      }
    }

    lemma MergeStart(from: seq<Span>, ab: seq<Span>, bc: seq<Span>)
      requires Valid() && from == Fine() && !errorCode.Failure()
      ensures Merging(from, ab, bc, Progress(0, 0, 0, 0, 0, 0, 0, 0, 0, 0, 0))
    {
      hide Spans, Encode, CutsSoFar, Shape;
      FineProper();
      CutsAtStart(from, ab, bc);
    }

    /** One log has come to its end before the other. */
    lemma Mismatch(from: seq<Span>, ab: seq<Span>, bc: seq<Span>, p: Progress)
      requires Merging(from, ab, bc, p)
      requires (p.k == |ab| && p.ab_bLength == 0 && 0 < p.bc_bLength) ||
               (p.m == |bc| && p.bc_bLength == 0 && 0 < p.ab_bLength)
      ensures Valid() && Total(ab, false) != Total(bc, true) && (errorCode.Failure() ==> Full())
    {
      hide Spans, Encoded, Recorded, CutsSoFar, Shape;
      SumsMonotone(ab, p.k, |ab|);
      SumsMonotone(bc, p.m, |bc|);
    }

    /** Both logs have come to their ends; nothing is pending. */
    lemma MergeEnd(from: seq<Span>, ab: seq<Span>, bc: seq<Span>, p: Progress)
      requires Proper(ab) && Proper(bc) && Merging(from, ab, bc, p)
      requires p.k == |ab| && p.m == |bc| && p.ab_bLength == 0 && p.bc_bLength == 0
      ensures p.pendingA == 0 && p.pendingC == 0
      ensures Valid() && Total(ab, false) == Total(bc, true) && (errorCode.Failure() ==> Full())
      ensures !errorCode.Failure() ==>
                Merged(from, Fine(), ab, bc, Total(ab, true), Total(bc, false)) && CutsMerged(from, Fine(), ab, bc) &&
                (Identity(ab) ==> Fine() == PushAll(from, bc, |bc|)) &&
                (Identity(bc) ==> Fine() == PushAll(from, ab, |ab|))
    {
      hide Spans, Encoded, CutsSoFar, CutsMerged;
      if !errorCode.Failure() {
        CutsAtEnd(from, Fine(), ab, bc, p);
      }
    }

    /** Unless one of the logs is within a change, nothing is pending. */
    lemma NothingPending(from: seq<Span>, ab: seq<Span>, bc: seq<Span>, p: Progress)
      requires Merging(from, ab, bc, p)
      requires 0 < p.ab_bLength ==> 0 < p.k <= |ab| && !ab[p.k - 1].changed
      requires 0 < p.bc_bLength ==> 0 < p.m <= |bc| && !bc[p.m - 1].changed
      ensures p.pendingA == 0 && p.pendingC == 0
    {
      hide Spans, Encoded, Recorded, CutsSoFar;
    }

    /** What the merge has recorded so far; recording fails only where the log cannot be extended. */
    ghost predicate Merging(from: seq<Span>, ab: seq<Span>, bc: seq<Span>, p: Progress)
      reads this, store
    {
      Valid() && Positioned(ab, bc, p) && Shape(ab, bc, p) &&
      (!errorCode.Failure() ==>
         Recorded(from, Fine(), ab, bc, p) && CutsSoFar(from, Fine(), ab, bc, p) &&
         VerbatimBc(from, Fine(), ab, bc, p) && VerbatimAb(from, Fine(), ab, bc, p)) &&
      (errorCode.Failure() ==> Full())
    }

    /** The texts on both sides of the merged log fit into the index range. */
    static ghost predicate Fits(from: seq<Span>, ab: seq<Span>, bc: seq<Span>) {
      Total(from, true) + Total(ab, true) <= INT32_MAX && Total(from, false) + Total(bc, false) <= INT32_MAX &&
      Total(ab, false) <= INT32_MAX && Total(bc, true) <= INT32_MAX
    }

    /** Records the pending change of a merge. */
    method AddPending(ghost from: seq<Span>, ghost ab: seq<Span>, ghost bc: seq<Span>, ghost p: Progress, x: nat,
                      z: nat)
      requires Valid() && Positioned(ab, bc, p) && x == p.pendingA && z == p.pendingC && Fits(from, ab, bc)
      requires !errorCode.Failure() ==> Recorded(from, Fine(), ab, bc, p)
      requires errorCode.Failure() ==> Full()
      modifies this, store
      ensures Valid() && (store == old(store) || fresh(store))
      ensures !errorCode.Failure() ==>
                !old(errorCode).Failure() &&
                Recorded(from, Fine(), ab, bc, p.(pendingA := 0, pendingC := 0)) &&
                Fine() == if x == 0 && z == 0 then old(Fine()) else old(Fine()) + [Span(true, x, z)]
      ensures errorCode.Failure() ==> Full()
    {
      hide Spans, Image, Push, SumOld, SumNew, Encoded;
      SumsMonotone(ab, p.k, |ab|);
      SumsMonotone(bc, p.m, |bc|);
      if !errorCode.Failure() {
        Flush(from, Fine(), ab, bc, p);
      }
      AddReplace(x, z);
    }

    // ----- the steps of the merge that record nothing

    lemma FetchedBc(from: seq<Span>, ab: seq<Span>, bc: seq<Span>, p: Progress)
      requires Proper(ab) && Proper(bc) && Merging(from, ab, bc, p)
      requires p.bc_bLength == 0 && p.m < |bc| && 0 < bc[p.m].oldLen
      ensures Merging(from, ab, bc, p.(m := p.m + 1, bc_bLength := bc[p.m].oldLen, cLength := bc[p.m].newLen))
    {
      hide Spans, Encoded, Recorded, CutsSoFar, Shape;
      FetchBc(from, Fine(), ab, bc, p);
      CutsFetchBc(from, Fine(), ab, bc, p, p.(m := p.m + 1, bc_bLength := bc[p.m].oldLen, cLength := bc[p.m].newLen));
    }

    lemma FetchedAb(from: seq<Span>, ab: seq<Span>, bc: seq<Span>, p: Progress)
      requires Proper(ab) && Proper(bc) && Merging(from, ab, bc, p)
      requires p.ab_bLength == 0 && p.k < |ab| && 0 < ab[p.k].newLen && (0 < p.bc_bLength || p.m == |bc|)
      ensures Merging(from, ab, bc, p.(k := p.k + 1, aLength := ab[p.k].oldLen, ab_bLength := ab[p.k].newLen))
    {
      hide Spans, Encoded, Recorded, CutsSoFar, Shape;
      FetchAb(from, Fine(), ab, bc, p);
      CutsFetchAb(from, Fine(), ab, bc, p, p.(k := p.k + 1, aLength := ab[p.k].oldLen, ab_bLength := ab[p.k].newLen));
    }

    lemma PendedInsertion(from: seq<Span>, ab: seq<Span>, bc: seq<Span>, p: Progress)
      requires Proper(ab) && Proper(bc) && Merging(from, ab, bc, p)
      requires p.bc_bLength == 0 && p.m < |bc| && bc[p.m].oldLen == 0
      requires 0 < p.ab_bLength && ab[p.k - 1].changed
      ensures var n := bc[p.m].newLen;
              Merging(from, ab, bc, p.(m := p.m + 1, cLength := n, pendingC := p.pendingC + n, c := p.c + n))
    {
      hide Spans, Encoded, Recorded, Verbatim, CutsSoFar, Shape;
      assert ProperSpan(bc[p.m]);
      FetchInsertion(from, Fine(), ab, bc, p);
      ghost var n := bc[p.m].newLen;
      CutsPendInsertion(from, Fine(), ab, bc, p,
                        p.(m := p.m + 1, cLength := n, pendingC := p.pendingC + n, c := p.c + n));
    }

    lemma PendedDeletion(from: seq<Span>, ab: seq<Span>, bc: seq<Span>, p: Progress)
      requires Proper(ab) && Proper(bc) && Merging(from, ab, bc, p)
      requires p.ab_bLength == 0 && p.k < |ab| && ab[p.k].newLen == 0
      requires 0 < p.bc_bLength && bc[p.m - 1].changed && p.bc_bLength != bc[p.m - 1].oldLen
      ensures var n := ab[p.k].oldLen;
              Merging(from, ab, bc, p.(k := p.k + 1, aLength := n, pendingA := p.pendingA + n, a := p.a + n))
    {
      hide Spans, Encoded, Recorded, Verbatim, CutsSoFar, Shape;
      assert ProperSpan(ab[p.k]);
      FetchDeletion(from, Fine(), ab, bc, p);
      ghost var n := ab[p.k].oldLen;
      CutsPendDeletion(from, Fine(), ab, bc, p,
                       p.(k := p.k + 1, aLength := n, pendingA := p.pendingA + n, a := p.a + n));
    }

    /** Accumulating a change, keeping what is left of the longer side. */
    lemma Accumulated(from: seq<Span>, ab: seq<Span>, bc: seq<Span>, p: Progress)
      requires Proper(ab) && Proper(bc) && Merging(from, ab, bc, p)
      requires 0 < p.ab_bLength && 0 < p.bc_bLength && p.ab_bLength != p.bc_bLength
      requires (if p.ab_bLength < p.bc_bLength then bc[p.m - 1].changed else ab[p.k - 1].changed)
      ensures var q := p.(pendingA := p.pendingA + p.aLength, pendingC := p.pendingC + p.cLength, a := p.a + p.aLength,
                          c := p.c + p.cLength);
              Merging(from, ab, bc,
                      if p.ab_bLength < p.bc_bLength then
                        q.(b := p.b + p.ab_bLength, bc_bLength := p.bc_bLength - p.ab_bLength, cLength := 0,
                           ab_bLength := 0)
                      else
                        q.(b := p.b + p.bc_bLength, ab_bLength := p.ab_bLength - p.bc_bLength, aLength := 0,
                           bc_bLength := 0))
    {
      hide Spans, Encoded, Recorded, Verbatim, CutsSoFar, Shape;
      var q' := p.(pendingA := p.pendingA + p.aLength, pendingC := p.pendingC + p.cLength, a := p.a + p.aLength,
                   c := p.c + p.cLength);
      var q := if p.ab_bLength < p.bc_bLength then
                 q'.(b := p.b + p.ab_bLength, bc_bLength := p.bc_bLength - p.ab_bLength, cLength := 0, ab_bLength := 0)
               else
                 q'.(b := p.b + p.bc_bLength, ab_bLength := p.ab_bLength - p.bc_bLength, aLength := 0, bc_bLength := 0);
      CutsAccumulate(from, Fine(), ab, bc, p, q);
      if Total(ab, false) == Total(bc, true) {
        RestWithin(ab, bc, p);
      }
      if ab[p.k - 1].changed {
        PendAbChange(from, Fine(), ab, bc, p, q);
      } else {
        PendBcChange(from, Fine(), ab, bc, p, q, p.ab_bLength);
      }
    }

    // ----- the steps of the merge that record a span

    /** The lengths that are recorded agree with the positions. */
    lemma RecordedUpTo(from: seq<Span>, ab: seq<Span>, bc: seq<Span>, p: Progress)
      requires Merging(from, ab, bc, p)
      ensures !errorCode.Failure() ==> UpTo(from, Fine(), p) && CutsSoFar(from, Fine(), ab, bc, p)
    {
      hide Spans, Encoded, CutsSoFar, Shape;
    }

    method MergeInsertion(ghost from: seq<Span>, ghost ab: seq<Span>, ghost bc: seq<Span>, ghost p: Progress, x: nat,
                          z: nat)
      requires Proper(ab) && Proper(bc) && Merging(from, ab, bc, p) && Fits(from, ab, bc)
      requires p.bc_bLength == 0 && p.m < |bc| && bc[p.m].oldLen == 0 && x == p.pendingA &&
               z == p.pendingC + bc[p.m].newLen
      requires p.ab_bLength == 0 || !ab[p.k - 1].changed
      modifies this, store
      ensures store == old(store) || fresh(store)
      ensures var n := bc[p.m].newLen;
              Merging(from, ab, bc, p.(m := p.m + 1, cLength := n, pendingA := 0, pendingC := 0, c := p.c + n))
    {
      hide Spans, Encoded, Recorded, PushAll, SumOld, SumNew, CutsSoFar, Shape, UpTo;
      assert ProperSpan(bc[p.m]);
      ghost var n := bc[p.m].newLen;
      ghost var q := p.(m := p.m + 1, cLength := n, pendingC := p.pendingC + n, c := p.c + n);
      ghost var spans := Fine();
      FetchInsertion(from, spans, ab, bc, p);
      CutsInsertion(from, spans, ab, bc, p, p.(m := p.m + 1, cLength := n, pendingA := 0, pendingC := 0, c := p.c + n));
      RecordedUpTo(from, ab, bc, p);
      AddPending(from, ab, bc, q, x, z);
      if !errorCode.Failure() && Identity(ab) && Total(ab, false) == Total(bc, true) {
        VerbatimChange(from, spans, bc, q.m, 0, n);
      }
    }

    method MergeDeletion(ghost from: seq<Span>, ghost ab: seq<Span>, ghost bc: seq<Span>, ghost p: Progress, x: nat,
                         z: nat)
      requires Proper(ab) && Proper(bc) && Merging(from, ab, bc, p) && Fits(from, ab, bc)
      requires p.ab_bLength == 0 && p.k < |ab| && ab[p.k].newLen == 0 && x == p.pendingA + ab[p.k].oldLen &&
               z == p.pendingC
      requires if p.bc_bLength == 0 then p.m == |bc|
               else 0 < p.m <= |bc| && (p.bc_bLength == bc[p.m - 1].oldLen || !bc[p.m - 1].changed)
      modifies this, store
      ensures store == old(store) || fresh(store)
      ensures var n := ab[p.k].oldLen;
              Merging(from, ab, bc, p.(k := p.k + 1, aLength := n, pendingA := 0, pendingC := 0, a := p.a + n))
    {
      hide Spans, Encoded, Recorded, PushAll, SumOld, SumNew, CutsSoFar, Shape, UpTo;
      assert ProperSpan(ab[p.k]);
      ghost var n := ab[p.k].oldLen;
      ghost var q := p.(k := p.k + 1, aLength := n, pendingA := p.pendingA + n, a := p.a + n);
      ghost var spans := Fine();
      FetchDeletion(from, spans, ab, bc, p);
      CutsDeletion(from, spans, ab, bc, p, p.(k := p.k + 1, aLength := n, pendingA := 0, pendingC := 0, a := p.a + n));
      RecordedUpTo(from, ab, bc, p);
      AddPending(from, ab, bc, q, x, z);
      if !errorCode.Failure() && Identity(bc) && Total(ab, false) == Total(bc, true) {
        VerbatimChange(from, spans, ab, q.k, n, 0);
      }
    }

    method MergeUnchanged(ghost from: seq<Span>, ghost ab: seq<Span>, ghost bc: seq<Span>, ghost p: Progress, n: nat)
      requires Proper(ab) && Proper(bc) && Merging(from, ab, bc, p)
      requires p.pendingA == 0 && p.pendingC == 0
      requires 0 < p.ab_bLength && 0 < p.bc_bLength && !ab[p.k - 1].changed && !bc[p.m - 1].changed
      requires n == if p.aLength <= p.cLength then p.aLength else p.cLength
      modifies this, store
      ensures store == old(store) || fresh(store)
      ensures p.aLength == p.ab_bLength && p.cLength == p.bc_bLength
      ensures Merging(from, ab, bc, p.(a := p.a + n, b := p.b + n, c := p.c + n,
                                       aLength := p.aLength - n, ab_bLength := p.ab_bLength - n,
                                       bc_bLength := p.bc_bLength - n, cLength := p.cLength - n))
    {
      hide Spans, Encoded, Recorded, PushAll, Push, SumOld, SumNew, CutsSoFar, Shape, UpTo;
      ghost var spans := Fine();
      FineProper();
      if !errorCode.Failure() {
        RecordUnchanged(from, spans, ab, bc, p, n);
      }
      PushUnchangedSums(spans, n);
      ghost var q := p.(a := p.a + n, b := p.b + n, c := p.c + n,
                        aLength := p.aLength - n, ab_bLength := p.ab_bLength - n,
                        bc_bLength := p.bc_bLength - n, cLength := p.cLength - n);
      assert ProperSpan(ab[p.k - 1]) && ProperSpan(bc[p.m - 1]);
      CutsUnchanged(from, spans, ab, bc, p, n, q);
      ShapeAfter(ab, bc, p, q);
      RecordedUpTo(from, ab, bc, p);
      AddUnchanged(n);
      if !errorCode.Failure() && Total(ab, false) == Total(bc, true) {
        RestWithin(ab, bc, p);
        assert ProperSpan(ab[p.k - 1]) && ProperSpan(bc[p.m - 1]);
        if Identity(ab) {
          VerbatimUnchanged(from, spans, bc, p.m, n);
        }
        if Identity(bc) {
          VerbatimUnchanged(from, spans, ab, p.k, n);
        }
      }
    }

    lemma FineProper()
      requires Encoded()
      ensures Proper(Fine())
    {
      SpansProper(records, false, |records|);
    }

    /** A change of `bc` that falls into text `ab` leaves unchanged. */
    method MergeBcChange(ghost from: seq<Span>, ghost ab: seq<Span>, ghost bc: seq<Span>, ghost p: Progress, x: nat,
                         z: nat)
      requires Proper(ab) && Proper(bc) && Merging(from, ab, bc, p) && Fits(from, ab, bc)
      requires 0 < p.bc_bLength <= p.ab_bLength && !ab[p.k - 1].changed && bc[p.m - 1].changed
      requires x == p.pendingA + p.bc_bLength && z == p.pendingC + p.cLength
      modifies this, store
      ensures store == old(store) || fresh(store)
      ensures Merging(from, ab, bc, p.(a := p.a + p.bc_bLength, b := p.b + p.bc_bLength, c := p.c + p.cLength,
                                       aLength := p.ab_bLength - p.bc_bLength,
                                         ab_bLength := p.ab_bLength - p.bc_bLength,
                                       bc_bLength := 0, pendingA := 0, pendingC := 0))
    {
      hide Spans, Encoded, Recorded, PushAll, SumOld, SumNew, CutsSoFar, Shape, UpTo;
      ghost var spans := Fine();
      ghost var q := p.(a := p.a + p.bc_bLength, b := p.b + p.bc_bLength, c := p.c + p.cLength,
                        aLength := p.ab_bLength - p.bc_bLength, ab_bLength := p.ab_bLength - p.bc_bLength,
                        bc_bLength := 0, pendingA := p.pendingA + p.bc_bLength, pendingC := p.pendingC + p.cLength);
      PendBcChange(from, spans, ab, bc, p, q, p.bc_bLength);
      CutsChange(from, spans, ab, bc, p, q.(pendingA := 0, pendingC := 0));
      ShapeAfter(ab, bc, p, q.(pendingA := 0, pendingC := 0));
      RecordedUpTo(from, ab, bc, p);
      AddPending(from, ab, bc, q, x, z);
      if !errorCode.Failure() && Identity(ab) && Total(ab, false) == Total(bc, true) {
        VerbatimChange(from, spans, bc, p.m, p.bc_bLength, p.cLength);
      }
    }

    /** A change of `ab` that `bc` leaves alone. */
    method MergeAbChange(ghost from: seq<Span>, ghost ab: seq<Span>, ghost bc: seq<Span>, ghost p: Progress, x: nat,
                         z: nat)
      requires Proper(ab) && Proper(bc) && Merging(from, ab, bc, p) && Fits(from, ab, bc)
      requires 0 < p.ab_bLength <= p.bc_bLength && ab[p.k - 1].changed && !bc[p.m - 1].changed
      requires x == p.pendingA + p.aLength && z == p.pendingC + p.ab_bLength
      modifies this, store
      ensures store == old(store) || fresh(store)
      ensures Merging(from, ab, bc, p.(a := p.a + p.aLength, b := p.b + p.ab_bLength, c := p.c + p.ab_bLength,
                                       bc_bLength := p.bc_bLength - p.ab_bLength,
                                         cLength := p.bc_bLength - p.ab_bLength,
                                       ab_bLength := 0, pendingA := 0, pendingC := 0))
    {
      hide Spans, Encoded, Recorded, PushAll, SumOld, SumNew, CutsSoFar, Shape, UpTo;
      ghost var spans := Fine();
      ghost var q := p.(a := p.a + p.aLength, b := p.b + p.ab_bLength, c := p.c + p.ab_bLength,
                        bc_bLength := p.bc_bLength - p.ab_bLength, cLength := p.bc_bLength - p.ab_bLength,
                        ab_bLength := 0, pendingA := p.pendingA + p.aLength, pendingC := p.pendingC + p.ab_bLength);
      PendAbChange(from, spans, ab, bc, p, q);
      CutsChange(from, spans, ab, bc, p, q.(pendingA := 0, pendingC := 0));
      ShapeAfter(ab, bc, p, q.(pendingA := 0, pendingC := 0));
      RecordedUpTo(from, ab, bc, p);
      AddPending(from, ab, bc, q, x, z);
      if !errorCode.Failure() && Identity(bc) && Total(ab, false) == Total(bc, true) {
        VerbatimChange(from, spans, ab, p.k, p.aLength, p.ab_bLength);
      }
    }

    /** Both current spans are changes, and end together. */
    method MergeBothChange(ghost from: seq<Span>, ghost ab: seq<Span>, ghost bc: seq<Span>, ghost p: Progress, x: nat,
                           z: nat)
      requires Proper(ab) && Proper(bc) && Merging(from, ab, bc, p) && Fits(from, ab, bc)
      requires 0 < p.ab_bLength == p.bc_bLength && ab[p.k - 1].changed && bc[p.m - 1].changed
      requires x == p.pendingA + p.aLength && z == p.pendingC + p.cLength
      modifies this, store
      ensures store == old(store) || fresh(store)
      ensures Merging(from, ab, bc, p.(a := p.a + p.aLength, b := p.b + p.ab_bLength, c := p.c + p.cLength,
                                       ab_bLength := 0, bc_bLength := 0, pendingA := 0, pendingC := 0))
    {
      hide Spans, Encoded, Recorded, PushAll, SumOld, SumNew, CutsSoFar, Shape, UpTo;
      ghost var spans := Fine();
      ghost var q := p.(a := p.a + p.aLength, b := p.b + p.ab_bLength, c := p.c + p.cLength,
                        ab_bLength := 0, bc_bLength := 0, pendingA := p.pendingA + p.aLength,
                          pendingC := p.pendingC + p.cLength);
      PendAbChange(from, spans, ab, bc, p, q);
      CutsChange(from, spans, ab, bc, p, q.(pendingA := 0, pendingC := 0));
      ShapeAfter(ab, bc, p, q.(pendingA := 0, pendingC := 0));
      RecordedUpTo(from, ab, bc, p);
      AddPending(from, ab, bc, q, x, z);
      if !errorCode.Failure() && x == 0 && z == 0 {
        NothingToRecord(from, spans, ab, bc, q.(pendingA := 0, pendingC := 0));
      }
    }

    /** The caller's error code, unless it has none and recording failed. */
    function CopyErrorTo(outErrorCode: ErrorCode): ErrorCode
      reads this
    {
      if outErrorCode.Failure() then outErrorCode else errorCode
    }

    method GetFineIterator() returns (it: Iterator)
      requires Valid()
      ensures fresh(it) && it.Valid() && it.dir == 0 && it.p == 0 && it.All() == Fine() && !it.onlyChanges
    {
      it := new Iterator(store[..length], false, false, records);
    }

    method GetFineChangesIterator() returns (it: Iterator)
      requires Valid()
      ensures fresh(it) && it.Valid() && it.dir == 0 && it.p == 0 && it.All() == Fine() && it.onlyChanges
    {
      it := new Iterator(store[..length], true, false, records);
    }

    method GetCoarseIterator() returns (it: Iterator)
      requires Valid()
      ensures fresh(it) && it.Valid() && it.dir == 0 && it.p == 0 && !it.onlyChanges
      ensures it.All() == Coarsen(Fine(), |Fine()|)
    {
      it := new Iterator(store[..length], false, true, records);
      CoarseMergesFine(records, |records|);
    }

    method GetCoarseChangesIterator() returns (it: Iterator)
      requires Valid()
      ensures fresh(it) && it.Valid() && it.dir == 0 && it.p == 0 && it.onlyChanges
      ensures it.All() == Coarsen(Fine(), |Fine()|)
    {
      it := new Iterator(store[..length], true, true, records);
      CoarseMergesFine(records, |records|);
    }

    /** `k` spans of a log have been fetched, and the iterator tells the kind of the last one. */
    ghost predicate Fetched(it: Iterator, s: seq<Span>, k: nat, hasNext: bool, active: bool)
      reads it
    {
      it.Valid() && it.All() == s && k <= |s| &&
      (if hasNext then it.Cursor() == k else k == |s| && it.dir == 0 && it.oldLength == 0) &&
      (active ==> hasNext && 0 < k && it.dir == 1 && s[k - 1] == Span(it.changed, it.oldLength, it.newLength))
    }

    /** The lengths the merge works with are those of its progress. */
    static ghost predicate Match(l: Lengths, p: Progress) {
      p.aLength == l.aLength && p.ab_bLength == l.ab_bLength && p.bc_bLength == l.bc_bLength &&
      p.cLength == l.cLength &&
      p.pendingA == l.pendingA && p.pendingC == l.pendingC
    }

    /** Fetches the next span of `bc`; an insertion is dealt with at once. */
    method NextOfBc(ghost from: seq<Span>, ghost ab: seq<Span>, ghost bc: seq<Span>, ghost p: Progress,
                    abIter: Iterator, bcIter: Iterator, ghost abHasNext: bool, l: Lengths, errorCode: ErrorCode)
      returns (hasNext: bool, r: Lengths, ghost q: Progress, again: bool)
      requires Proper(ab) && Proper(bc) && Merging(from, ab, bc, p) && Fits(from, ab, bc) && Match(l, p)
      requires Fetched(abIter, ab, p.k, abHasNext, 0 < l.ab_bLength) && Fetched(bcIter, bc, p.m, true, false)
      requires abIter != bcIter && l.bc_bLength == 0 && !errorCode.Failure()
      modifies this, store, bcIter
      ensures Merging(from, ab, bc, q) && (store == old(store) || fresh(store)) && Match(r, q)
      ensures Fetched(bcIter, bc, q.m, hasNext, 0 < r.bc_bLength)
      ensures q.k == p.k && r.ab_bLength == l.ab_bLength && q.m == (if hasNext then p.m + 1 else p.m)
      ensures again == (hasNext && r.bc_bLength == 0) && (!hasNext ==> r.bc_bLength == 0)
    {
      hide Spans, Encoded, Merging, SumOld, SumNew, Proper, Iterator.Valid;
      r, q, again := l, p, false;
      hasNext := bcIter.Next(false, errorCode);
      bcIter.CurrentSpan();
      if !hasNext {
        return;
      }
      var n := bcIter.newLength;
      if bcIter.oldLength > 0 {
        FetchedBc(from, ab, bc, p);
        q := p.(m := p.m + 1, bc_bLength := bcIter.oldLength, cLength := n);
        r := l.(bc_bLength := bcIter.oldLength, cLength := n);
        return;
      }
      // Nothing of b is used up, so the turn ends here.
      again := true;
      if l.ab_bLength == 0 || !abIter.changed {
        MergeInsertion(from, ab, bc, p, l.pendingA, l.pendingC + n);
        q := p.(m := p.m + 1, cLength := n, pendingA := 0, pendingC := 0, c := p.c + n);
        r := l.(cLength := n, pendingA := 0, pendingC := 0);
      } else {
        PendedInsertion(from, ab, bc, p);
        q := p.(m := p.m + 1, cLength := n, pendingC := p.pendingC + n, c := p.c + n);
        r := l.(cLength := n, pendingC := l.pendingC + n);
      }
    }

    /** Fetches the next span of `ab`; a deletion is dealt with at once. */
    method NextOfAb(ghost from: seq<Span>, ghost ab: seq<Span>, ghost bc: seq<Span>, ghost p: Progress,
                    abIter: Iterator, bcIter: Iterator, ghost bcHasNext: bool, l: Lengths, errorCode: ErrorCode)
      returns (hasNext: bool, r: Lengths, ghost q: Progress, again: bool)
      requires Proper(ab) && Proper(bc) && Merging(from, ab, bc, p) && Fits(from, ab, bc) && Match(l, p)
      requires Fetched(abIter, ab, p.k, true, false) && Fetched(bcIter, bc, p.m, bcHasNext, 0 < l.bc_bLength)
      requires l.bc_bLength == 0 ==> !bcHasNext
      requires abIter != bcIter && l.ab_bLength == 0 && !errorCode.Failure()
      modifies this, store, abIter
      ensures Merging(from, ab, bc, q) && (store == old(store) || fresh(store)) && Match(r, q)
      ensures Fetched(abIter, ab, q.k, hasNext, 0 < r.ab_bLength)
      ensures q.m == p.m && r.bc_bLength == l.bc_bLength && q.k == (if hasNext then p.k + 1 else p.k)
      ensures again == (hasNext && r.ab_bLength == 0) && (!hasNext ==> r.ab_bLength == 0)
    {
      hide Spans, Encoded, Merging, SumOld, SumNew, Proper, Iterator.Valid;
      r, q, again := l, p, false;
      hasNext := abIter.Next(false, errorCode);
      abIter.CurrentSpan();
      if !hasNext {
        return;
      }
      var n := abIter.oldLength;
      if abIter.newLength > 0 {
        FetchedAb(from, ab, bc, p);
        q := p.(k := p.k + 1, aLength := n, ab_bLength := abIter.newLength);
        r := l.(aLength := n, ab_bLength := abIter.newLength);
        return;
      }
      // Nothing of b is made, so the turn ends here.
      again := true;
      if l.bc_bLength == bcIter.oldLength || !bcIter.changed {
        MergeDeletion(from, ab, bc, p, l.pendingA + n, l.pendingC);
        q := p.(k := p.k + 1, aLength := n, pendingA := 0, pendingC := 0, a := p.a + n);
        r := l.(aLength := n, pendingA := 0, pendingC := 0);
      } else {
        PendedDeletion(from, ab, bc, p);
        q := p.(k := p.k + 1, aLength := n, pendingA := p.pendingA + n, a := p.a + n);
        r := l.(aLength := n, pendingA := l.pendingA + n);
      }
    }

    /** Merges the current spans of both logs as far as the shorter of them goes. */
    method MergeCurrent(ghost from: seq<Span>, ghost ab: seq<Span>, ghost bc: seq<Span>, ghost p: Progress,
                        abChanged: bool, bcChanged: bool, l: Lengths)
      returns (r: Lengths, ghost q: Progress)
      requires Proper(ab) && Proper(bc) && Merging(from, ab, bc, p) && Fits(from, ab, bc) && Match(l, p)
      requires 0 < p.ab_bLength && 0 < p.bc_bLength && 0 < p.k <= |ab| && 0 < p.m <= |bc|
      requires abChanged == ab[p.k - 1].changed && bcChanged == bc[p.m - 1].changed
      modifies this, store
      ensures Merging(from, ab, bc, q) && (store == old(store) || fresh(store)) && Match(r, q)
      ensures q.k == p.k && q.m == p.m && (r.ab_bLength == 0 || r.bc_bLength == 0)
    {
      hide Spans, Encoded, Merging, SumOld, SumNew, Proper;
      q := p;
      if !abChanged && !bcChanged {
        // Each position of the shorter span has an image at the end: the one with the same offset.
        NothingPending(from, ab, bc, q);
        if l.pendingA != 0 || l.pendingC != 0 {
          assert false;
        }
        var n := if l.aLength <= l.cLength then l.aLength else l.cLength;
        MergeUnchanged(from, ab, bc, q, n);
        q := q.(a := q.a + n, b := q.b + n, c := q.c + n,
                aLength := q.aLength - n, ab_bLength := q.ab_bLength - n, bc_bLength := q.bc_bLength - n,
                  cLength := q.cLength - n);
        return Lengths(l.aLength - n, l.aLength - n, l.cLength - n, l.cLength - n, 0, 0), q;
      }
      // With one change, the result has a joint cut exactly where the change ends within the
      // other span; with two, exactly where both end. Otherwise the change goes on.
      if !abChanged && bcChanged {
        if l.ab_bLength >= l.bc_bLength {
          MergeBcChange(from, ab, bc, q, l.pendingA + l.bc_bLength, l.pendingC + l.cLength);
          var rest := l.ab_bLength - l.bc_bLength;
          q := q.(a := q.a + q.bc_bLength, b := q.b + q.bc_bLength, c := q.c + q.cLength,
                  aLength := rest, ab_bLength := rest, bc_bLength := 0, pendingA := 0, pendingC := 0);
          return Lengths(rest, rest, 0, l.cLength, 0, 0), q;
        }
      } else if abChanged && !bcChanged {
        if l.ab_bLength <= l.bc_bLength {
          MergeAbChange(from, ab, bc, q, l.pendingA + l.aLength, l.pendingC + l.ab_bLength);
          var rest := l.bc_bLength - l.ab_bLength;
          q := q.(a := q.a + q.aLength, b := q.b + q.ab_bLength, c := q.c + q.ab_bLength,
                  bc_bLength := rest, cLength := rest, ab_bLength := 0, pendingA := 0, pendingC := 0);
          return Lengths(l.aLength, 0, rest, rest, 0, 0), q;
        }
      } else {
        if l.ab_bLength == l.bc_bLength {
          MergeBothChange(from, ab, bc, q, l.pendingA + l.aLength, l.pendingC + l.cLength);
          q := q.(a := q.a + q.aLength, b := q.b + q.ab_bLength, c := q.c + q.cLength,
                  ab_bLength := 0, bc_bLength := 0, pendingA := 0, pendingC := 0);
          return Lengths(l.aLength, 0, 0, l.cLength, 0, 0), q;
        }
      }
      Accumulated(from, ab, bc, q);
      q := q.(pendingA := q.pendingA + q.aLength, pendingC := q.pendingC + q.cLength, a := q.a + q.aLength,
              c := q.c + q.cLength);
      if l.ab_bLength < l.bc_bLength {
        var rest := l.bc_bLength - l.ab_bLength;
        q := q.(b := q.b + q.ab_bLength, bc_bLength := rest, cLength := 0, ab_bLength := 0);
        return Lengths(l.aLength, 0, rest, 0, l.pendingA + l.aLength, l.pendingC + l.cLength), q;
      } else {
        var rest := l.ab_bLength - l.bc_bLength;
        q := q.(b := q.b + q.bc_bLength, ab_bLength := rest, aLength := 0, bc_bLength := 0);
        return Lengths(0, rest, 0, l.cLength, l.pendingA + l.aLength, l.pendingC + l.cLength), q;
      }
    }

    /** How much is left to fetch; it decreases whenever something is fetched. */
    static ghost function Unfetched(ab: seq<Span>, bc: seq<Span>, p: Progress, abHasNext: bool, bcHasNext: bool): int {
      |ab| - p.k + |bc| - p.m + (if abHasNext then 1 else 0) + (if bcHasNext then 1 else 0)
    }

    /** What the merge goes on with, between two turns. */
    ghost predicate Turning(from: seq<Span>, ab: seq<Span>, bc: seq<Span>, p: Progress, abIter: Iterator,
                            bcIter: Iterator,
                            abHasNext: bool, bcHasNext: bool, l: Lengths)
      reads this, store, abIter, bcIter
    {
      Merging(from, ab, bc, p) && Match(l, p) && abIter != bcIter && (l.ab_bLength == 0 || l.bc_bLength == 0) &&
      Fetched(abIter, ab, p.k, abHasNext, 0 < l.ab_bLength) && Fetched(bcIter, bc, p.m, bcHasNext, 0 < l.bc_bLength)
    }

    /** Fetches from the logs, from `bc` first, until both have a current span, or tells that one of them is done. */
    method FetchBoth(ghost from: seq<Span>, ghost ab: seq<Span>, ghost bc: seq<Span>, ghost p: Progress,
                     abIter: Iterator, bcIter: Iterator, abHasNext: bool, bcHasNext: bool, l: Lengths,
                       errorCode: ErrorCode)
      returns (abMore: bool, bcMore: bool, r: Lengths, ghost q: Progress, turn: Turn)
      requires Proper(ab) && Proper(bc) && Fits(from, ab, bc) && !errorCode.Failure()
      requires Turning(from, ab, bc, p, abIter, bcIter, abHasNext, bcHasNext, l)
      modifies this, store, abIter, bcIter
      ensures Merging(from, ab, bc, q) && (store == old(store) || fresh(store)) && Match(r, q)
      ensures Fetched(abIter, ab, q.k, abMore, 0 < r.ab_bLength) && Fetched(bcIter, bc, q.m, bcMore, 0 < r.bc_bLength)
      ensures turn == Again ==> r.ab_bLength == 0 || r.bc_bLength == 0
      ensures turn == Again || turn == Ready ==>
                Unfetched(ab, bc, q, abMore, bcMore) < Unfetched(ab, bc, p, abHasNext, bcHasNext)
      ensures turn == Ready ==> 0 < r.ab_bLength && 0 < r.bc_bLength
      ensures turn == Done ==> r.ab_bLength == 0 && r.bc_bLength == 0 && !abMore && !bcMore
      ensures turn == Differ ==> if 0 < r.ab_bLength then r.bc_bLength == 0 && !bcMore else !abMore && 0 < r.bc_bLength
    {
      hide Merging, Iterator.Valid, Iterator.All, Iterator.Cursor, Proper, Fits;
      abMore, bcMore, r, q := abHasNext, bcHasNext, l, p;
      var again := false;
      if r.bc_bLength == 0 && bcMore {
        bcMore, r, q, again := NextOfBc(from, ab, bc, q, abIter, bcIter, abMore, r, errorCode);
        if again {
          return abMore, bcMore, r, q, Again;
        }
      }
      if r.ab_bLength == 0 {
        if abMore {
          abMore, r, q, again := NextOfAb(from, ab, bc, q, abIter, bcIter, bcMore, r, errorCode);
          if again {
            return abMore, bcMore, r, q, Again;
          }
        }
        if !abMore {
          turn := if r.bc_bLength == 0 then Done else Differ;
          return;
        }
      }
      turn := if r.bc_bLength == 0 then Differ else Ready;
    }

    /**
     Appends the composition of two logs. If all goes well, a text position is unchanged in
     the result exactly if both logs leave it unchanged, with the same image; the lengths of
     a and c are added; the result can be cut in two exactly where both logs can, insertions
     before deletions; and merging with a log that changes nothing appends the other log,
     span by span. The mismatch error is reported exactly if `ab` makes a text of another
     length than `bc` expects.
     */
    method MergeAndAppend(ab: Edits, bc: Edits, errorCode: ErrorCode) returns (outErrorCode: ErrorCode)
      requires Valid() && ab.Valid() && bc.Valid() && this != ab && this != bc && store != ab.store && store != bc.store
      requires Fits(Fine(), ab.Fine(), bc.Fine())
      modifies this, store
      ensures Valid()
      ensures errorCode.Failure() || old(this.errorCode).Failure() ==>
                Fine() == old(Fine()) && this.errorCode == old(this.errorCode) && delta == old(delta) &&
                numChanges == old(numChanges) && outErrorCode == old(CopyErrorTo(errorCode))
      ensures !errorCode.Failure() && !old(this.errorCode).Failure() ==>
                (this.errorCode.Failure() ==> Full() && outErrorCode == this.errorCode) &&
                (!this.errorCode.Failure() ==>
                   outErrorCode == if Total(old(ab.Fine()), false) != Total(old(bc.Fine()), true) then
                     IllegalArgumentError else ZeroError)
      ensures !outErrorCode.Failure() ==>
                var from, s, t := old(Fine()), old(ab.Fine()), old(bc.Fine());
                Merged(from, Fine(), s, t, Total(s, true), Total(t, false)) && CutsMerged(from, Fine(), s, t) &&
                (Identity(s) ==> Fine() == PushAll(from, t, |t|)) &&
                (Identity(t) ==> Fine() == PushAll(from, s, |s|))
      ensures !this.errorCode.Failure() ==> numChanges == |Changes(Fine())|
    {
      hide Spans, Encoded, Changes, Merging, Encode, Image, SumOld, SumNew, PushAll, Proper, Identity, Merged,
        CutsMerged,
        Start, Iterator.Valid;
      outErrorCode := CopyErrorTo(errorCode);
      if outErrorCode.Failure() {
        return;
      }
      ghost var from, s, t := Fine(), ab.Fine(), bc.Fine();
      var abIter := ab.GetFineIterator();
      var bcIter := bc.GetFineIterator();
      var abHasNext, bcHasNext := true, true;
      ghost var p := Progress(0, 0, 0, 0, 0, 0, 0, 0, 0, 0, 0);
      ab.FineProper();
      bc.FineProper();
      MergeStart(from, s, t);
      var l := Lengths(0, 0, 0, 0, 0, 0);
      var turn := Again;
      while turn != Done
        invariant fresh(abIter) && fresh(bcIter) && (store == old(store) || fresh(store))
        invariant Turning(from, s, t, p, abIter, bcIter, abHasNext, bcHasNext, l)
        invariant turn == Done ==> l.ab_bLength == 0 && l.bc_bLength == 0 && !abHasNext && !bcHasNext
        decreases turn != Done, Unfetched(s, t, p, abHasNext, bcHasNext)
      {
        abHasNext, bcHasNext, l, p,
          turn := FetchBoth(from, s, t, p, abIter, bcIter, abHasNext, bcHasNext, l, errorCode);
        if turn == Differ {
          // The two logs do not agree on the length of the text between them.
          Mismatch(from, s, t, p);
          outErrorCode := CopyErrorTo(errorCode);
          if !outErrorCode.Failure() {
            outErrorCode := IllegalArgumentError;
          }
          return;
        }
        if turn == Ready {
          l, p := MergeCurrent(from, s, t, p, abIter.changed, bcIter.changed, l);
        }
      }
      MergeEnd(from, s, t, p);
      if l.pendingA != 0 || l.pendingC != 0 {
        assert false;
      }
      outErrorCode := CopyErrorTo(errorCode);
    }
  }

  lemma LongCode(s: seq<Unit>, i: nat, mid: nat, limit: nat, m: nat, n: nat)
    requires i < mid <= limit <= |s| && Long(m, n).Valid()
    requires s[i] == 0x7000 + LengthField(m) * 0x40 + LengthField(n)
    requires s[i + 1..mid] == Trail(m) && s[mid..limit] == Trail(n)
    ensures s[..limit] == s[..i] + EncodeRecord(Long(m, n))
  {
    hide Trail, LengthField;
    assert s[..limit] == s[..i] + ([s[i]] + s[i + 1..mid] + s[mid..limit]);
  }

  lemma ShortUnit(m: nat, n: nat, num: nat)
    requires Short(m, n, num).Valid()
    ensures EncodeRecord(Short(m, n, num)) == [m * 0x1000 + n * 0x200 + (num - 1)]
  {
  }

  /** A unit of short replacements with the same lengths is the last record's. */
  lemma SameShort(r: Record, u: Unit, m: nat, n: nat)
    requires HeadOf(u, r) && r.Valid() && MAX_UNCHANGED < u < MAX_SHORT_CHANGE
    requires 1 <= m <= 6 && n <= 7 && u - u % 0x200 == m * 0x1000 + n * 0x200
    ensures r == Short(m, n, u % 0x200 + 1)
  {
    ShortFields(m, n, u % 0x200);
  }

  lemma AppendTotals(spans: seq<Span>, x: Span)
    ensures Total(spans + [x], true) == Total(spans, true) + x.oldLen
    ensures Total(spans + [x], false) == Total(spans, false) + x.newLen
  {
    SumsOfPrefix(spans + [x], spans, |spans|);
  }

  lemma HeadUnitKind(r: Record, u: Unit)
    requires HeadOf(u, r)
    ensures r.Long? <==> MAX_SHORT_CHANGE < u
  {
  }
}
