/**
 A log and two iterators over it for which the same search has a different outcome, though
 it is documented not to depend on the state of the iterator.
 */
module EditExamples {
  import opened Common
  import opened EditSpans
  import opened EditRecords
  import opened EditIterator
  import opened ErrorCodes

  /** One unchanged unit, one unit replaced by two, and one unchanged unit. */
  ghost function Log(): seq<Record> {
    [Unchanged(1), Short(1, 2, 1), Unchanged(1)]
  }

  ghost function LogSpans(): seq<Span> {
    [Span(false, 1, 1), Span(true, 1, 2), Span(false, 1, 1)]
  }

  lemma LogIs()
    ensures ValidRecords(Log()) && Encode(Log(), 3) == [0, 0x1400, 0]
    ensures Spans(Log(), false) == LogSpans()
  {
    var r := Log();
    assert Encode(r, 1) == [0] && Encode(r, 2) == [0, 0x1400];
    assert SpansTo(r, false, 1) == LogSpans()[..1];
    assert PushTimes(LogSpans()[..1], Span(true, 1, 2), 1) == LogSpans()[..2];
    assert SpansTo(r, false, 2) == LogSpans()[..2];
  }

  lemma LogSums()
    ensures Start(LogSpans(), 0, true) == 0 && Start(LogSpans(), 1, true) == 1 && Start(LogSpans(), 2, true) == 2
    ensures Total(LogSpans(), true) == 3 && SpanAt(LogSpans(), 1, true) == 1
  {
    assert SumOld(LogSpans(), 1) == 1 && SumOld(LogSpans(), 2) == 2 && SumOld(LogSpans(), 3) == 3;
    HoldsIsSpanAt(LogSpans(), 1, 1, true);
  }

  /**
   The search for source index 1 finds the replacement; what a step from there delivers, in an
   iterator that came from the start.
   */
  method FromStart() returns (where: int, found: nat, srcIndex: nat, changed: bool)
    ensures where == 0 && found == 1 && srcIndex == 2 && !changed
  {
    LogIs();
    LogSums();
    hide Iterator.Valid, Encode, Spans, LogSpans, SumOld, SumNew, SumRepl, SpanAt, Start, Total;
    var it := new Iterator([0, 0x1400, 0], false, false, Log());
    where, found := Search(it);
    srcIndex, changed := Step(it);
  }

  /** The same in an iterator that came from the last span. */
  method FromEnd() returns (where: int, found: nat, srcIndex: nat, changed: bool)
    ensures where == 0 && found == 1 && srcIndex == 1 && changed
  {
    LogIs();
    LogSums();
    hide Iterator.Valid, Encode, Spans, LogSpans, SumOld, SumNew, SumRepl, SpanAt, Start, Total;
    var it := new Iterator([0, 0x1400, 0], false, false, Log());
    srcIndex, changed := Step(it);
    srcIndex, changed := Step(it);
    srcIndex, changed := Step(it);
    where, found := Search(it);
    srcIndex, changed := Step(it);
  }

  ghost predicate OfLog(it: Iterator)
    reads it
  {
    it.Valid() && it.All() == LogSpans()
  }

  /** Searches source index 1; from the last span on, the search leaves the iterator going backward. */
  method Search(it: Iterator) returns (where: int, found: nat)
    requires OfLog(it) && if it.dir == 1 then it.p == 2 else it.dir == 0 && it.p == 0
    modifies it
    ensures OfLog(it) && where == 0 && found == it.srcIndex == 1 && it.p == 1
    ensures it.dir == if old(it.dir) == 1 then -1 else 1
  {
    LogSums();
    where := it.FindIndex(1, true, ZeroError);
    found := it.srcIndex;
  }

  /** Goes on to the next span. */
  method Step(it: Iterator) returns (srcIndex: nat, changed: bool)
    requires OfLog(it) && it.Cursor() < 3
    modifies it
    ensures OfLog(it) && it.dir == 1 && it.p == old(it.Cursor())
    ensures srcIndex == it.p && changed == (it.p == 1)
  {
    LogSums();
    var more := it.Next(false, ZeroError);
    srcIndex, changed := it.srcIndex, it.changed;
  }

  // ----- the edits of a case folding

  /** Five fine spans; the two changes in the middle are adjacent, and make up one coarse span. */
  lemma FoldedCoarsely()
    ensures var fine := [Span(false, 3, 3), Span(true, 1, 2), Span(true, 1, 1), Span(false, 1, 1), Span(true, 1, 1)];
            Coarsen(fine, 5) == [Span(false, 3, 3), Span(true, 2, 3), Span(false, 1, 1), Span(true, 1, 1)] &&
            |Changes(fine)| == 3
  {
    var a, b, c, d, e := Span(false, 3, 3), Span(true, 1, 2), Span(true, 1, 1), Span(false, 1, 1), Span(true, 1, 1);
    var fine := [a, b, c, d, e];
    assert Coarsen(fine, 1) == [a];
    assert Coarsen(fine, 2) == [a, b];
    assert Coarsen(fine, 3) == [a, Span(true, 2, 3)];
    assert Coarsen(fine, 4) == [a, Span(true, 2, 3), d];
    assert Changes(fine) == {1, 2, 4};
  }
}
