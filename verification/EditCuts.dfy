/**
 Where a log may be cut in two, and where the composition of two logs may: the order and the
 granularity of what `Edits::mergeAndAppend` in `icu/common/edits.cpp` records.
 */
module EditCuts {
  import opened Common
  import opened EditSpans
  import opened EditRecords
  import opened EditMerge

  /** Old position `x` and new position `y` are at the start of span `q`, or correspond within its unchanged text. */
  ghost predicate CutAt(s: seq<Span>, q: nat, x: nat, y: nat) {
    q <= |s| && SumOld(s, q) <= x && x - SumOld(s, q) == y - SumNew(s, q) &&
    (x == SumOld(s, q) || (q < |s| && !s[q].changed && x <= SumOld(s, q + 1)))
  }

  /** No change of the log straddles the two positions. */
  ghost predicate Cut(s: seq<Span>, x: nat, y: nat) {
    exists q: nat :: CutAt(s, q, x, y)
  }

  ghost predicate FirstAt(ab: seq<Span>, i: nat, b: nat) {
    forall x: nat :: Cut(ab, x, b) ==> i <= x
  }

  ghost predicate LastAt(bc: seq<Span>, b: nat, j: nat) {
    forall y: nat :: Cut(bc, b, y) ==> y <= j
  }

  /**
   Both logs can be cut at position `b` of the text in the middle. Where deletions of `ab` meet
   insertions of `bc`, the insertions come first.
   */
  ghost predicate JointAt(ab: seq<Span>, bc: seq<Span>, i: nat, b: nat, j: nat) {
    Cut(ab, i, b) && Cut(bc, b, j) && (FirstAt(ab, i, b) || LastAt(bc, b, j))
  }

  ghost predicate JointCut(ab: seq<Span>, bc: seq<Span>, i: nat, j: nat) {
    exists b: nat :: JointAt(ab, bc, i, b, j)
  }

  /** The log can be cut after `from`, exactly where both logs can. */
  ghost predicate CutsMerged(from: seq<Span>, spans: seq<Span>, ab: seq<Span>, bc: seq<Span>) {
    forall i: nat, j: nat :: Cut(spans, Total(from, true) + i, Total(from, false) + j) <==> JointCut(ab, bc, i, j)
  }

  // ----- cuts of a log

  lemma BoundaryIsCut(s: seq<Span>, q: nat)
    requires q <= |s|
    ensures Cut(s, SumOld(s, q), SumNew(s, q))
  {
    assert CutAt(s, q, SumOld(s, q), SumNew(s, q));
  }

  /** A cut that begins in span `q` does not go beyond it. */
  lemma CutWithin(s: seq<Span>, q: nat, x: nat, y: nat)
    requires Proper(s) && CutAt(s, q, x, y) && q < |s|
    ensures x <= SumOld(s, q + 1) && y <= SumNew(s, q + 1)
  {
    assert ProperSpan(s[q]);
  }

  /** Each cut is before or after a span, or corresponds to a position within its unchanged text. */
  lemma CutAround(s: seq<Span>, k: nat, x: nat, y: nat)
    requires Proper(s) && 0 < k <= |s| && Cut(s, x, y)
    ensures (x <= SumOld(s, k - 1) && y <= SumNew(s, k - 1)) || (SumOld(s, k) <= x && SumNew(s, k) <= y) ||
            (!s[k - 1].changed && SumOld(s, k - 1) <= x <= SumOld(s, k) && x - SumOld(s, k - 1) == y - SumNew(s, k - 1))
  {
    var q: nat :| CutAt(s, q, x, y);
    if q < k - 1 {
      SumsMonotone(s, q + 1, k - 1);
      CutWithin(s, q, x, y);
    } else if q >= k {
      SumsMonotone(s, k, q);
    }
  }

  /** Cuts lie within the texts. */
  lemma CutInRange(s: seq<Span>, x: nat, y: nat)
    requires Proper(s) && Cut(s, x, y)
    ensures x <= Total(s, true) && y <= Total(s, false)
  {
    var q: nat :| CutAt(s, q, x, y);
    SumsMonotone(s, q, |s|);
    if q < |s| {
      SumsMonotone(s, q + 1, |s|);
      CutWithin(s, q, x, y);
    }
  }

  lemma InsideIsCut(s: seq<Span>, k: nat, n: nat)
    requires 0 < k <= |s| && !s[k - 1].changed && n <= s[k - 1].oldLen
    ensures Cut(s, SumOld(s, k - 1) + n, SumNew(s, k - 1) + n)
  {
    assert CutAt(s, k - 1, SumOld(s, k - 1) + n, SumNew(s, k - 1) + n);
  }

  // ----- cuts of a log that is extended

  lemma CutsAfterChange(s: seq<Span>, z: Span, x: nat, y: nat)
    requires z.changed
    ensures Cut(s + [z], x, y) <==> Cut(s, x, y) || (x == Total(s, true) + z.oldLen && y == Total(s, false) + z.newLen)
  {
    var t := s + [z];
    forall q: nat | q <= |s|
      ensures SumOld(t, q) == SumOld(s, q) && SumNew(t, q) == SumNew(s, q)
    {
      SumsOfPrefix(t, s, q);
    }
    if Cut(s, x, y) {
      var q: nat :| CutAt(s, q, x, y);
      assert CutAt(t, q, x, y);
    }
    if x == Total(s, true) + z.oldLen && y == Total(s, false) + z.newLen {
      assert CutAt(t, |t|, x, y);
    }
    if Cut(t, x, y) {
      var q: nat :| CutAt(t, q, x, y);
      if q <= |s| {
        assert CutAt(s, q, x, y);
      }
    }
  }

  /** Appending unchanged text allows for cuts within it. */
  lemma CutsAfterUnchanged(s: seq<Span>, n: nat, x: nat, y: nat)
    requires Proper(s) && 0 < n
    ensures Cut(Push(s, Span(false, n, n), false), x, y) <==>
            Cut(s, x, y) || (Total(s, true) <= x <= Total(s, true) + n && x - Total(s, true) == y - Total(s, false))
  {
    var t := Push(s, Span(false, n, n), false);
    if Cut(s, x, y) || (Total(s, true) <= x <= Total(s, true) + n && x - Total(s, true) == y - Total(s, false)) {
      CutsInExtended(s, t, n, x, y);
    }
    if Cut(t, x, y) {
      CutsOfExtended(s, t, n, x, y);
    }
  }

  /** Appending unchanged text keeps all spans but the last, which may grow. */
  lemma ExtendedSums(s: seq<Span>, t: seq<Span>, n: nat, q: nat)
    requires Proper(s) && 0 < n && t == Push(s, Span(false, n, n), false) && q < |t| - 1
    ensures |t| - 1 <= |s| && t[q] == s[q] && Sums(t, q) == Sums(s, q) && Sums(t, q + 1) == Sums(s, q + 1)
  {
    hide SumOld, SumNew, SumRepl;
    SumsOfPrefix(t, s, q);
    SumsOfPrefix(t, s, q + 1);
  }

  /** The last span begins where it began before, and reaches `n` farther. */
  lemma ExtendedLast(s: seq<Span>, t: seq<Span>, n: nat)
    requires Proper(s) && 0 < n && t == Push(s, Span(false, n, n), false)
    ensures 0 < |t| && LastGrew(s, t, n, |t| - 1)
  {
    hide SumOld, SumNew, SumRepl;
    var last := |t| - 1;
    SumsOfPrefix(t, s, last);
    if last < |s| {
      assert |s| == last + 1 && !s[last].changed && t[last] == Span(false, s[last].oldLen + n, s[last].newLen + n);
      assert ProperSpan(s[last]);
      NextSums(s, last);
    } else {
      assert last == |s| && t[last] == Span(false, n, n);
    }
    hide Proper, Push;
  }

  ghost predicate LastGrew(s: seq<Span>, t: seq<Span>, n: nat, last: nat) {
    last <= |s| <= last + 1 && last + 1 == |t| && Sums(t, last) == Sums(s, last) &&
    !t[last].changed && t[last].oldLen == t[last].newLen &&
    (last < |s| ==> s[last].oldLen == s[last].newLen && !s[last].changed) &&
    SumOld(s, last) + t[last].oldLen == Total(s, true) + n && SumNew(s, last) + t[last].newLen == Total(s, false) + n
  }

  lemma CutsInExtended(s: seq<Span>, t: seq<Span>, n: nat, x: nat, y: nat)
    requires Proper(s) && 0 < n && t == Push(s, Span(false, n, n), false)
    requires Cut(s, x, y) || (Total(s, true) <= x <= Total(s, true) + n && x - Total(s, true) == y - Total(s, false))
    ensures Cut(t, x, y)
  {
    var last := |t| - 1;
    ExtendedLast(s, t, n);
    if Cut(s, x, y) {
      var q: nat :| CutAt(s, q, x, y);
      if q < last {
        ExtendedSums(s, t, n, q);
        hide Push;
        assert CutAt(t, q, x, y);
      } else {
        hide Push;
        assert CutAt(t, last, x, y);
      }
    } else {
      hide Push;
      assert CutAt(t, last, x, y);
    }
  }

  lemma CutsOfExtended(s: seq<Span>, t: seq<Span>, n: nat, x: nat, y: nat)
    requires Proper(s) && 0 < n && t == Push(s, Span(false, n, n), false) && Cut(t, x, y)
    ensures Cut(s, x, y) || (Total(s, true) <= x <= Total(s, true) + n && x - Total(s, true) == y - Total(s, false))
  {
    var last := |t| - 1;
    ExtendedLast(s, t, n);
    var q: nat :| CutAt(t, q, x, y);
    if q < last {
      ExtendedSums(s, t, n, q);
      hide Push;
      assert CutAt(s, q, x, y);
    } else if x <= Total(s, true) {
      hide Push;
      assert CutAt(s, last, x, y);
    }
  }

  // ----- the state of the merge

  /** If the rest of a change is shorter than the change, then its other side was used up before. */
  ghost predicate Parted(s: Span, rest: nat, whole: nat, otherRest: nat, otherWhole: nat) {
    if rest == whole then otherRest == otherWhole else s.changed ==> otherRest == 0
  }

  ghost predicate PartOfAb(ab: seq<Span>, p: Progress) {
    0 < p.k <= |ab| && 0 < p.ab_bLength < ab[p.k - 1].newLen && ab[p.k - 1].changed
  }

  ghost predicate PartOfBc(bc: seq<Span>, p: Progress) {
    0 < p.m <= |bc| && 0 < p.bc_bLength < bc[p.m - 1].oldLen && bc[p.m - 1].changed
  }

  /** What the local variables of the merge tell about each other. */
  ghost predicate Shape(ab: seq<Span>, bc: seq<Span>, p: Progress) {
    p.k <= |ab| && p.m <= |bc| &&
    (0 < p.ab_bLength ==>
     0 < p.k && Parted(ab[p.k - 1], p.ab_bLength, ab[p.k - 1].newLen, p.aLength, ab[p.k - 1].oldLen)) &&
    (0 < p.bc_bLength ==>
     0 < p.m && Parted(bc[p.m - 1], p.bc_bLength, bc[p.m - 1].oldLen, p.cLength, bc[p.m - 1].newLen)) &&
    // A change is pending only within a change of one of the logs.
    (0 < p.pendingA + p.pendingC ==> PartOfAb(ab, p) || PartOfBc(bc, p)) &&
    (0 < p.ab_bLength && p.bc_bLength == 0 ==> p.ab_bLength < ab[p.k - 1].newLen || p.m == |bc|) &&
    (p.bc_bLength == 0 && p.m < |bc| ==> p.k == 0 || 0 < ab[p.k - 1].newLen)
  }

  /** A joint cut that the merge has passed. */
  ghost predicate Met(ab: seq<Span>, bc: seq<Span>, p: Progress, i: nat, j: nat) {
    exists b: nat :: MetAt(ab, bc, p, i, b, j)
  }

  ghost predicate MetAt(ab: seq<Span>, bc: seq<Span>, p: Progress, i: nat, b: nat, j: nat) {
    i <= p.a && b <= p.b && j <= p.c && JointAt(ab, bc, i, b, j)
  }

  /** Exactly the joint cuts so far are cuts of what is recorded. */
  ghost predicate CutsSoFar(from: seq<Span>, spans: seq<Span>, ab: seq<Span>, bc: seq<Span>, p: Progress) {
    forall i: nat, j: nat :: Cut(spans, Total(from, true) + i, Total(from, false) + j) <==> Met(ab, bc, p, i, j)
  }

  lemma CutsAtStart(from: seq<Span>, ab: seq<Span>, bc: seq<Span>)
    requires Proper(from)
    ensures CutsSoFar(from, from, ab, bc, Progress(0, 0, 0, 0, 0, 0, 0, 0, 0, 0, 0))
    ensures Shape(ab, bc, Progress(0, 0, 0, 0, 0, 0, 0, 0, 0, 0, 0))
  {
    var p := Progress(0, 0, 0, 0, 0, 0, 0, 0, 0, 0, 0);
    BoundaryIsCut(ab, 0);
    BoundaryIsCut(bc, 0);
    BoundaryIsCut(from, |from|);
    assert FirstAt(ab, 0, 0);
    assert MetAt(ab, bc, p, 0, 0, 0);
    forall i: nat, j: nat
      ensures Cut(from, Total(from, true) + i, Total(from, false) + j) <==> Met(ab, bc, p, i, j)
    {
      if Cut(from, Total(from, true) + i, Total(from, false) + j) {
        CutInRange(from, Total(from, true) + i, Total(from, false) + j);
      }
    }
  }

  lemma CutsAtEnd(from: seq<Span>, spans: seq<Span>, ab: seq<Span>, bc: seq<Span>, p: Progress)
    requires Proper(ab) && Proper(bc) && CutsSoFar(from, spans, ab, bc, p)
    requires p.a == Total(ab, true) && p.b == Total(ab, false) && p.c == Total(bc, false)
    ensures CutsMerged(from, spans, ab, bc)
  {
    forall i: nat, j: nat
      ensures JointCut(ab, bc, i, j) ==> Met(ab, bc, p, i, j)
    {
      if b: nat :| JointAt(ab, bc, i, b, j) {
        CutInRange(ab, i, b);
        CutInRange(bc, b, j);
        assert MetAt(ab, bc, p, i, b, j);
      }
    }
    forall i: nat, j: nat
      ensures Met(ab, bc, p, i, j) ==> JointCut(ab, bc, i, j)
    {
      if b: nat :| MetAt(ab, bc, p, i, b, j) {
        assert JointAt(ab, bc, i, b, j);
      }
    }
  }

  // ----- the kinds of steps

  ghost predicate Ahead(p: Progress, q: Progress) {
    p.a <= q.a && p.b <= q.b && p.c <= q.c
  }

  /** A step that passes no joint cut, and records nothing. */
  lemma NoneMet(from: seq<Span>, spans: seq<Span>, ab: seq<Span>, bc: seq<Span>, p: Progress, q: Progress)
    requires CutsSoFar(from, spans, ab, bc, p) && Ahead(p, q)
    requires forall i: nat, b: nat, j: nat :: MetAt(ab, bc, q, i, b, j) ==> MetAt(ab, bc, p, i, b, j)
    ensures CutsSoFar(from, spans, ab, bc, q)
  {
    forall i: nat, j: nat
      ensures Met(ab, bc, p, i, j) <==> Met(ab, bc, q, i, j)
    {
      if b: nat :| MetAt(ab, bc, p, i, b, j) {
        assert MetAt(ab, bc, q, i, b, j);
      }
      if b: nat :| MetAt(ab, bc, q, i, b, j) {
        assert MetAt(ab, bc, p, i, b, j);
      }
    }
  }

  /** A step that records a change up to the next joint cut. */
  lemma OneMet(from: seq<Span>, spans: seq<Span>, z: Span, ab: seq<Span>, bc: seq<Span>, p: Progress, q: Progress)
    requires CutsSoFar(from, spans, ab, bc, p) && Ahead(p, q) && z.changed
    requires Total(spans, true) + z.oldLen == Total(from, true) + q.a &&
             Total(spans, false) + z.newLen == Total(from, false) + q.c
    requires JointAt(ab, bc, q.a, q.b, q.c)
    requires forall i: nat, b: nat, j: nat :: MetAt(ab, bc, q, i, b, j) ==>
               MetAt(ab, bc, p, i, b, j) || (i == q.a && j == q.c)
    ensures CutsSoFar(from, spans + [z], ab, bc, q)
  {
    hide JointAt;
    forall i: nat, j: nat
      ensures Cut(spans + [z], Total(from, true) + i, Total(from, false) + j) <==> Met(ab, bc, q, i, j)
    {
      CutsAfterChange(spans, z, Total(from, true) + i, Total(from, false) + j);
      assert Cut(spans, Total(from, true) + i, Total(from, false) + j) <==> Met(ab, bc, p, i, j);
      if b: nat :| MetAt(ab, bc, p, i, b, j) {
        assert MetAt(ab, bc, q, i, b, j);
      }
      if i == q.a && j == q.c {
        assert MetAt(ab, bc, q, i, q.b, j);
      }
      if b: nat :| MetAt(ab, bc, q, i, b, j) {
        assert MetAt(ab, bc, p, i, b, j) || (i == q.a && j == q.c);
      }
    }
  }

  /** A change of no lengths, such as an insertion that is deleted again, need not be recorded. */
  lemma NothingToRecord(from: seq<Span>, spans: seq<Span>, ab: seq<Span>, bc: seq<Span>, q: Progress)
    requires CutsSoFar(from, spans + [Span(true, 0, 0)], ab, bc, q)
    ensures CutsSoFar(from, spans, ab, bc, q)
  {
    BoundaryIsCut(spans, |spans|);
    forall i: nat, j: nat
      ensures Cut(spans, Total(from, true) + i, Total(from, false) + j) <==> Met(ab, bc, q, i, j)
    {
      CutsAfterChange(spans, Span(true, 0, 0), Total(from, true) + i, Total(from, false) + j);
      assert Cut(spans + [Span(true, 0, 0)], Total(from, true) + i, Total(from, false) + j) <==> Met(ab, bc, q, i, j);
    }
  }

  ghost predicate JointAhead(ab: seq<Span>, bc: seq<Span>, p: Progress, d: nat) {
    JointAt(ab, bc, p.a + d, p.b + d, p.c + d)
  }

  /** A step that records unchanged text. */
  lemma AllMet(from: seq<Span>, spans: seq<Span>, n: nat, ab: seq<Span>, bc: seq<Span>, p: Progress, q: Progress)
    requires CutsSoFar(from, spans, ab, bc, p) && Proper(spans) && 0 < n && q.a == p.a + n && q.b == p.b + n &&
             q.c == p.c + n
    requires Total(spans, true) == Total(from, true) + p.a && Total(spans, false) == Total(from, false) + p.c
    requires forall d: nat :: d <= n ==> JointAhead(ab, bc, p, d)
    requires forall i: nat, b: nat, j: nat :: MetAt(ab, bc, q, i, b, j) ==>
               MetAt(ab, bc, p, i, b, j) || (p.a <= i && i - p.a == j - p.c)
    ensures CutsSoFar(from, Push(spans, Span(false, n, n), false), ab, bc, q)
  {
    hide JointAt, Push;
    forall i: nat, j: nat
      ensures Cut(Push(spans, Span(false, n, n), false), Total(from, true) + i, Total(from, false) + j) <==>
              Met(ab, bc, q, i, j)
    {
      CutsAfterUnchanged(spans, n, Total(from, true) + i, Total(from, false) + j);
      assert Cut(spans, Total(from, true) + i, Total(from, false) + j) <==> Met(ab, bc, p, i, j);
      if b: nat :| MetAt(ab, bc, p, i, b, j) {
        assert MetAt(ab, bc, q, i, b, j);
      }
      if p.a <= i <= q.a && i - p.a == j - p.c {
        assert JointAhead(ab, bc, p, i - p.a);
        assert MetAt(ab, bc, q, i, p.b + (i - p.a), j);
      }
      if b: nat :| MetAt(ab, bc, q, i, b, j) {
        assert MetAt(ab, bc, p, i, b, j) || (p.a <= i && i - p.a == j - p.c);
      }
    }
  }

  // ----- cuts before and after the current spans

  /** Cuts of `ab` up to the position in b are up to the position in a. */
  lemma BehindAb(ab: seq<Span>, bc: seq<Span>, p: Progress, i: nat, b: nat)
    requires Proper(ab) && Positioned(ab, bc, p) && Shape(ab, bc, p) && 0 < p.ab_bLength
    requires Cut(ab, i, b) && b <= p.b
    ensures i <= p.a
  {
    assert ProperSpan(ab[p.k - 1]);
    CutAround(ab, p.k, i, b);
  }

  lemma BehindBc(ab: seq<Span>, bc: seq<Span>, p: Progress, b: nat, j: nat)
    requires Proper(bc) && Positioned(ab, bc, p) && Shape(ab, bc, p) && 0 < p.bc_bLength
    requires Cut(bc, b, j) && b <= p.b
    ensures j <= p.c
  {
    assert ProperSpan(bc[p.m - 1]);
    CutAround(bc, p.m, b, j);
  }

  /** Cuts of `ab` within, or at the end of, its current span. */
  lemma AheadAb(ab: seq<Span>, bc: seq<Span>, p: Progress, i: nat, b: nat)
    requires Proper(ab) && Positioned(ab, bc, p) && Shape(ab, bc, p) && 0 < p.ab_bLength
    requires Cut(ab, i, b) && p.b < b <= p.b + p.ab_bLength
    ensures if ab[p.k - 1].changed then b == p.b + p.ab_bLength && p.a + p.aLength <= i
            else i == p.a + (b - p.b) || (b == p.b + p.ab_bLength && p.a + p.aLength <= i)
  {
    assert ProperSpan(ab[p.k - 1]);
    CutAround(ab, p.k, i, b);
  }

  lemma AheadBc(ab: seq<Span>, bc: seq<Span>, p: Progress, b: nat, j: nat)
    requires Proper(bc) && Positioned(ab, bc, p) && Shape(ab, bc, p) && 0 < p.bc_bLength
    requires Cut(bc, b, j) && p.b < b <= p.b + p.bc_bLength
    ensures if bc[p.m - 1].changed then b == p.b + p.bc_bLength && p.c + p.cLength <= j
            else j == p.c + (b - p.b) || (b == p.b + p.bc_bLength && p.c + p.cLength <= j)
  {
    assert ProperSpan(bc[p.m - 1]);
    CutAround(bc, p.m, b, j);
  }

  /** Both logs can be cut as far as unchanged text goes, and at the ends of their spans. */
  lemma CutsOfAb(ab: seq<Span>, bc: seq<Span>, p: Progress, d: nat)
    requires Proper(ab) && Positioned(ab, bc, p) && 0 < p.ab_bLength
    requires d <= p.ab_bLength && (ab[p.k - 1].changed ==> d == p.ab_bLength)
    ensures Cut(ab, p.a + (if ab[p.k - 1].changed then p.aLength else d), p.b + d)
  {
    assert ProperSpan(ab[p.k - 1]);
    BoundaryIsCut(ab, p.k);
    if !ab[p.k - 1].changed {
      InsideIsCut(ab, p.k, ab[p.k - 1].oldLen - p.aLength + d);
    }
  }

  lemma CutsOfBc(ab: seq<Span>, bc: seq<Span>, p: Progress, d: nat)
    requires Proper(bc) && Positioned(ab, bc, p) && 0 < p.bc_bLength
    requires d <= p.bc_bLength && (bc[p.m - 1].changed ==> d == p.bc_bLength)
    ensures Cut(bc, p.b + d, p.c + (if bc[p.m - 1].changed then p.cLength else d))
  {
    assert ProperSpan(bc[p.m - 1]);
    BoundaryIsCut(bc, p.m);
    if !bc[p.m - 1].changed {
      InsideIsCut(bc, p.m, bc[p.m - 1].oldLen - p.bc_bLength + d);
    }
  }

  /** Going forward in b, the first cut of `ab` is where its current span leads. */
  lemma FirstAhead(ab: seq<Span>, bc: seq<Span>, p: Progress, i: nat, b: nat)
    requires Proper(ab) && Positioned(ab, bc, p) && Shape(ab, bc, p) && 0 < p.ab_bLength
    requires p.b < b <= p.b + p.ab_bLength
    requires i == p.a + if ab[p.k - 1].changed then p.aLength else b - p.b
    ensures FirstAt(ab, i, b)
  {
    assert ProperSpan(ab[p.k - 1]);
    forall x: nat | Cut(ab, x, b)
      ensures i <= x
    {
      AheadAb(ab, bc, p, x, b);
    }
  }

  // ----- the steps

  ghost predicate Ready(ab: seq<Span>, bc: seq<Span>, p: Progress) {
    Proper(ab) && Proper(bc) && Positioned(ab, bc, p) && Shape(ab, bc, p)
  }

  /** All but the pending change is recorded. */
  ghost predicate UpTo(from: seq<Span>, spans: seq<Span>, p: Progress) {
    Total(spans, true) == Total(from, true) + p.a - p.pendingA &&
    Total(spans, false) == Total(from, false) + p.c - p.pendingC
  }

  /** After a step that records, nothing is pending, and only unchanged text is left. */
  lemma ShapeAfter(ab: seq<Span>, bc: seq<Span>, p: Progress, q: Progress)
    requires Ready(ab, bc, p) && 0 < p.ab_bLength && 0 < p.bc_bLength
    requires q.k == p.k && q.m == p.m && q.pendingA == 0 && q.pendingC == 0
    requires q.ab_bLength == 0 || (q.ab_bLength == q.aLength < p.ab_bLength && !ab[p.k - 1].changed)
    requires q.bc_bLength == 0 || (q.bc_bLength == q.cLength < p.bc_bLength && !bc[p.m - 1].changed)
    ensures Shape(ab, bc, q)
  {
    assert ProperSpan(ab[p.k - 1]) && ProperSpan(bc[p.m - 1]);
  }

  lemma CutsFetchBc(from: seq<Span>, spans: seq<Span>, ab: seq<Span>, bc: seq<Span>, p: Progress, q: Progress)
    requires Ready(ab, bc, p) && p.bc_bLength == 0 && p.m < |bc| && 0 < bc[p.m].oldLen
    requires q == p.(m := p.m + 1, bc_bLength := bc[p.m].oldLen, cLength := bc[p.m].newLen)
    ensures Shape(ab, bc, q) && (CutsSoFar(from, spans, ab, bc, p) ==> CutsSoFar(from, spans, ab, bc, q))
  {
    hide JointAt;
    if CutsSoFar(from, spans, ab, bc, p) {
      NoneMet(from, spans, ab, bc, p, q);
    }
  }

  lemma CutsFetchAb(from: seq<Span>, spans: seq<Span>, ab: seq<Span>, bc: seq<Span>, p: Progress, q: Progress)
    requires Ready(ab, bc, p) && p.ab_bLength == 0 && p.k < |ab| && 0 < ab[p.k].newLen &&
             (0 < p.bc_bLength || p.m == |bc|)
    requires q == p.(k := p.k + 1, aLength := ab[p.k].oldLen, ab_bLength := ab[p.k].newLen)
    ensures Shape(ab, bc, q) && (CutsSoFar(from, spans, ab, bc, p) ==> CutsSoFar(from, spans, ab, bc, q))
  {
    hide JointAt;
    if CutsSoFar(from, spans, ab, bc, p) {
      NoneMet(from, spans, ab, bc, p, q);
    }
  }

  /** An insertion within a change of `ab`: the logs cannot be cut there. */
  lemma CutsPendInsertion(from: seq<Span>, spans: seq<Span>, ab: seq<Span>, bc: seq<Span>, p: Progress, q: Progress)
    requires Ready(ab, bc, p) && p.bc_bLength == 0 && p.m < |bc| && bc[p.m].oldLen == 0
    requires 0 < p.ab_bLength && ab[p.k - 1].changed
    requires var n := bc[p.m].newLen; q == p.(m := p.m + 1, cLength := n, pendingC := p.pendingC + n, c := p.c + n)
    ensures Shape(ab, bc, q) && (CutsSoFar(from, spans, ab, bc, p) ==> CutsSoFar(from, spans, ab, bc, q))
  {
    forall i: nat, b: nat, j: nat | MetAt(ab, bc, q, i, b, j)
      ensures MetAt(ab, bc, p, i, b, j)
    {
      if p.c < j {
        CutAround(bc, p.m + 1, b, j);
        BehindAb(ab, bc, p, i, b);
        CutAround(ab, p.k, i, b);
      }
    }
    if CutsSoFar(from, spans, ab, bc, p) {
      NoneMet(from, spans, ab, bc, p, q);
    }
  }

  /** Any other insertion is recorded on its own: it comes before deletions at the same position. */
  lemma CutsInsertion(from: seq<Span>, spans: seq<Span>, ab: seq<Span>, bc: seq<Span>, p: Progress, q: Progress)
    requires Ready(ab, bc, p) && p.bc_bLength == 0 && p.m < |bc| && bc[p.m].oldLen == 0
    requires p.ab_bLength == 0 || !ab[p.k - 1].changed
    requires var n := bc[p.m].newLen; q == p.(m := p.m + 1, cLength := n, pendingA := 0, pendingC := 0, c := p.c + n)
    ensures p.pendingA == 0 && p.pendingC == 0 && Shape(ab, bc, q)
    ensures UpTo(from, spans, p) && CutsSoFar(from, spans, ab, bc, p) ==>
              CutsSoFar(from, spans + [Span(true, 0, bc[p.m].newLen)], ab, bc, q)
  {
    assert ProperSpan(bc[p.m]);
    BoundaryIsCut(bc, p.m + 1);
    OnlyHere(ab, bc, p);
    assert JointAt(ab, bc, q.a, q.b, q.c);
    forall i: nat, b: nat, j: nat | MetAt(ab, bc, q, i, b, j)
      ensures MetAt(ab, bc, p, i, b, j) || (i == q.a && j == q.c)
    {
      CutAround(bc, p.m + 1, b, j);
    }
    if UpTo(from, spans, p) && CutsSoFar(from, spans, ab, bc, p) {
      OneMet(from, spans, Span(true, 0, bc[p.m].newLen), ab, bc, p, q);
    }
  }

  /** Before the first insertion at a position, no deletion at that position has been passed. */
  lemma OnlyHere(ab: seq<Span>, bc: seq<Span>, p: Progress)
    requires Ready(ab, bc, p) && p.bc_bLength == 0 && p.m < |bc| && (p.ab_bLength == 0 || !ab[p.k - 1].changed)
    ensures Cut(ab, p.a, p.b) && FirstAt(ab, p.a, p.b)
    ensures forall i: nat :: Cut(ab, i, p.b) && i <= p.a ==> i == p.a
  {
    if p.ab_bLength == 0 {
      BoundaryIsCut(ab, p.k);
    } else {
      CutsOfAb(ab, bc, p, 0);
    }
    forall i: nat | Cut(ab, i, p.b)
      ensures p.a <= i
    {
      if p.k > 0 {
        assert ProperSpan(ab[p.k - 1]);
        CutAround(ab, p.k, i, p.b);
      }
    }
  }

  /** A deletion within a change of `bc`: the logs cannot be cut there. */
  lemma CutsPendDeletion(from: seq<Span>, spans: seq<Span>, ab: seq<Span>, bc: seq<Span>, p: Progress, q: Progress)
    requires Ready(ab, bc, p) && p.ab_bLength == 0 && p.k < |ab| && ab[p.k].newLen == 0
    requires 0 < p.bc_bLength && bc[p.m - 1].changed && p.bc_bLength != bc[p.m - 1].oldLen
    requires var n := ab[p.k].oldLen; q == p.(k := p.k + 1, aLength := n, pendingA := p.pendingA + n, a := p.a + n)
    ensures Shape(ab, bc, q) && (CutsSoFar(from, spans, ab, bc, p) ==> CutsSoFar(from, spans, ab, bc, q))
  {
    forall i: nat, b: nat, j: nat | MetAt(ab, bc, q, i, b, j)
      ensures MetAt(ab, bc, p, i, b, j)
    {
      if p.a < i {
        CutAround(ab, p.k + 1, i, b);
        CutAround(bc, p.m, b, j);
      }
    }
    if CutsSoFar(from, spans, ab, bc, p) {
      NoneMet(from, spans, ab, bc, p, q);
    }
  }

  /** Any other deletion is recorded on its own, after all insertions at the same position. */
  lemma CutsDeletion(from: seq<Span>, spans: seq<Span>, ab: seq<Span>, bc: seq<Span>, p: Progress, q: Progress)
    requires Ready(ab, bc, p) && p.ab_bLength == 0 && p.k < |ab| && ab[p.k].newLen == 0
    requires if p.bc_bLength == 0 then p.m == |bc| else p.bc_bLength == bc[p.m - 1].oldLen || !bc[p.m - 1].changed
    requires var n := ab[p.k].oldLen; q == p.(k := p.k + 1, aLength := n, pendingA := 0, pendingC := 0, a := p.a + n)
    ensures p.pendingA == 0 && p.pendingC == 0 && Shape(ab, bc, q)
    ensures UpTo(from, spans, p) && CutsSoFar(from, spans, ab, bc, p) ==>
              CutsSoFar(from, spans + [Span(true, ab[p.k].oldLen, 0)], ab, bc, q)
  {
    assert ProperSpan(ab[p.k]);
    BoundaryIsCut(ab, p.k);
    BoundaryIsCut(ab, p.k + 1);
    LastHere(ab, bc, p);
    assert JointAt(ab, bc, q.a, q.b, q.c);
    forall i: nat, b: nat, j: nat | MetAt(ab, bc, q, i, b, j)
      ensures MetAt(ab, bc, p, i, b, j) || (i == q.a && j == q.c)
    {
      CutAround(ab, p.k + 1, i, b);
    }
    if UpTo(from, spans, p) && CutsSoFar(from, spans, ab, bc, p) {
      OneMet(from, spans, Span(true, ab[p.k].oldLen, 0), ab, bc, p, q);
    }
  }

  lemma LastHere(ab: seq<Span>, bc: seq<Span>, p: Progress)
    requires Ready(ab, bc, p)
    requires if p.bc_bLength == 0 then p.m == |bc| else p.bc_bLength == bc[p.m - 1].oldLen || !bc[p.m - 1].changed
    ensures Cut(bc, p.b, p.c) && LastAt(bc, p.b, p.c)
  {
    if p.bc_bLength == 0 {
      BoundaryIsCut(bc, p.m);
    } else if bc[p.m - 1].changed {
      BoundaryIsCut(bc, p.m - 1);
    } else {
      CutsOfBc(ab, bc, p, 0);
    }
    forall j: nat | Cut(bc, p.b, j)
      ensures j <= p.c
    {
      if p.bc_bLength == 0 {
        CutInRange(bc, p.b, j);
      } else {
        BehindBc(ab, bc, p, p.b, j);
      }
    }
  }

  /** Going forward in b up to the end of a span: at most the end is a joint cut. */
  lemma StepMeets(ab: seq<Span>, bc: seq<Span>, p: Progress, q: Progress, i: nat, b: nat, j: nat)
    requires Ready(ab, bc, p) && 0 < p.ab_bLength && 0 < p.bc_bLength && MetAt(ab, bc, q, i, b, j)
    requires q.b <= p.b + p.ab_bLength && q.b <= p.b + p.bc_bLength
    ensures MetAt(ab, bc, p, i, b, j) || p.b < b
    ensures p.b < b && ab[p.k - 1].changed ==> b == p.b + p.ab_bLength && p.a + p.aLength <= i
    ensures p.b < b && bc[p.m - 1].changed ==> b == p.b + p.bc_bLength && p.c + p.cLength <= j
    ensures p.b < b && !ab[p.k - 1].changed ==>
              i == p.a + (b - p.b) || (b == p.b + p.ab_bLength && p.a + p.aLength <= i)
    ensures p.b < b && !bc[p.m - 1].changed ==>
              j == p.c + (b - p.b) || (b == p.b + p.bc_bLength && p.c + p.cLength <= j)
  {
    if b <= p.b {
      BehindAb(ab, bc, p, i, b);
      BehindBc(ab, bc, p, b, j);
    } else {
      AheadAb(ab, bc, p, i, b);
      AheadBc(ab, bc, p, b, j);
    }
  }

  /** Accumulating a change up to a position within the longer side: the logs cannot be cut there. */
  lemma CutsAccumulate(from: seq<Span>, spans: seq<Span>, ab: seq<Span>, bc: seq<Span>, p: Progress, q: Progress)
    requires Ready(ab, bc, p) && 0 < p.ab_bLength && 0 < p.bc_bLength && p.ab_bLength != p.bc_bLength
    requires if p.ab_bLength < p.bc_bLength then bc[p.m - 1].changed else ab[p.k - 1].changed
    requires var r := p.(pendingA := p.pendingA + p.aLength, pendingC := p.pendingC + p.cLength, a := p.a + p.aLength,
                         c := p.c + p.cLength);
             q == if p.ab_bLength < p.bc_bLength then
                    r.(b := p.b + p.ab_bLength, bc_bLength := p.bc_bLength - p.ab_bLength, cLength := 0,
                       ab_bLength := 0)
                  else
                    r.(b := p.b + p.bc_bLength, ab_bLength := p.ab_bLength - p.bc_bLength, aLength := 0,
                       bc_bLength := 0)
    ensures Shape(ab, bc, q) && (CutsSoFar(from, spans, ab, bc, p) ==> CutsSoFar(from, spans, ab, bc, q))
  {
    forall i: nat, b: nat, j: nat | MetAt(ab, bc, q, i, b, j)
      ensures MetAt(ab, bc, p, i, b, j)
    {
      StepMeets(ab, bc, p, q, i, b, j);
    }
    if CutsSoFar(from, spans, ab, bc, p) {
      NoneMet(from, spans, ab, bc, p, q);
    }
  }

  /** Recording a change up to a position where both logs can be cut. */
  lemma CutsChange(from: seq<Span>, spans: seq<Span>, ab: seq<Span>, bc: seq<Span>, p: Progress, q: Progress)
    requires Ready(ab, bc, p) && 0 < p.ab_bLength && 0 < p.bc_bLength && (ab[p.k - 1].changed || bc[p.m - 1].changed)
    requires ab[p.k - 1].changed ==> p.ab_bLength <= p.bc_bLength
    requires bc[p.m - 1].changed ==> p.bc_bLength <= p.ab_bLength
    requires q.b == p.b + (if ab[p.k - 1].changed then p.ab_bLength else p.bc_bLength)
    requires q.a == p.a + (if ab[p.k - 1].changed then p.aLength else q.b - p.b)
    requires q.c == p.c + (if bc[p.m - 1].changed then p.cLength else q.b - p.b)
    ensures UpTo(from, spans, p) && CutsSoFar(from, spans, ab, bc, p) ==>
              CutsSoFar(from, spans + [Span(true, p.pendingA + (q.a - p.a), p.pendingC + (q.c - p.c))], ab, bc, q)
  {
    CutsOfAb(ab, bc, p, q.b - p.b);
    CutsOfBc(ab, bc, p, q.b - p.b);
    FirstAhead(ab, bc, p, q.a, q.b);
    assert JointAt(ab, bc, q.a, q.b, q.c);
    forall i: nat, b: nat, j: nat | MetAt(ab, bc, q, i, b, j)
      ensures MetAt(ab, bc, p, i, b, j) || (i == q.a && j == q.c)
    {
      StepMeets(ab, bc, p, q, i, b, j);
    }
    if UpTo(from, spans, p) && CutsSoFar(from, spans, ab, bc, p) {
      OneMet(from, spans, Span(true, p.pendingA + (q.a - p.a), p.pendingC + (q.c - p.c)), ab, bc, p, q);
    }
  }

  /** Recording text that both logs leave unchanged. */
  lemma CutsUnchanged(from: seq<Span>, spans: seq<Span>, ab: seq<Span>, bc: seq<Span>, p: Progress, n: nat, q: Progress)
    requires Ready(ab, bc, p) && Proper(spans) && 0 < n <= p.ab_bLength && n <= p.bc_bLength && !ab[p.k - 1].changed &&
             !bc[p.m - 1].changed
    requires q.a == p.a + n && q.b == p.b + n && q.c == p.c + n
    ensures UpTo(from, spans, p) && p.pendingA + p.pendingC == 0 && CutsSoFar(from, spans, ab, bc, p) ==>
              CutsSoFar(from, Push(spans, Span(false, n, n), false), ab, bc, q)
  {
    hide Push;
    forall d: nat | d <= n
      ensures JointAhead(ab, bc, p, d)
    {
      CutsOfAb(ab, bc, p, d);
      CutsOfBc(ab, bc, p, d);
      if 0 < d {
        FirstAhead(ab, bc, p, p.a + d, p.b + d);
      } else {
        LastHere(ab, bc, p);
      }
    }
    forall i: nat, b: nat, j: nat | MetAt(ab, bc, q, i, b, j)
      ensures MetAt(ab, bc, p, i, b, j) || (p.a <= i && i - p.a == j - p.c)
    {
      StepMeets(ab, bc, p, q, i, b, j);
    }
    if UpTo(from, spans, p) && p.pendingA + p.pendingC == 0 && CutsSoFar(from, spans, ab, bc, p) {
      AllMet(from, spans, n, ab, bc, p, q);
    }
  }

  // ----- a log is determined by its images and its cuts

  /** Two logs leave the same positions unchanged, and can be cut at the same places. */
  ghost predicate Alike(s: seq<Span>, t: seq<Span>) {
    (forall x: nat, y: nat :: Cut(s, x, y) <==> Cut(t, x, y)) && (forall i: nat :: Image(s, i) == Image(t, i)) &&
    Total(s, true) == Total(t, true) && Total(s, false) == Total(t, false)
  }

  /** Where one has a change the other one has a change. */
  lemma ChangeAgrees(s: seq<Span>, t: seq<Span>, q: nat)
    requires Proper(s) && Proper(t) && Alike(s, t) && q < |s| && q < |t| && s[..q] == t[..q] && s[q].changed
    ensures t[q].changed
  {
    SumsOfPrefix(s, t, q);
    assert ProperSpan(s[q]) && ProperSpan(t[q]);
    if !t[q].changed {
      InsideIsCut(t, q + 1, 1);
      CutAround(s, q + 1, SumOld(s, q) + 1, SumNew(s, q) + 1);
      BoundaryIsCut(s, q + 1);
      CutAround(t, q + 1, SumOld(s, q + 1), SumNew(s, q + 1));
      ImageAt(s, q, SumOld(s, q));
      ImageAt(t, q, SumOld(s, q));
    }
  }

  /** The change of one is no longer than that of the other. */
  lemma ChangeNoLonger(s: seq<Span>, t: seq<Span>, q: nat)
    requires Proper(s) && Proper(t) && Alike(s, t) && q < |s| && q < |t| && s[..q] == t[..q] && s[q].changed &&
             t[q].changed
    ensures s[q].oldLen <= t[q].oldLen && s[q].newLen <= t[q].newLen
  {
    SumsOfPrefix(s, t, q);
    assert ProperSpan(t[q]);
    BoundaryIsCut(t, q + 1);
    CutAround(s, q + 1, SumOld(t, q + 1), SumNew(t, q + 1));
  }

  lemma UnchangedNoLonger(s: seq<Span>, t: seq<Span>, q: nat)
    requires Proper(s) && Proper(t) && Normal(t) && Alike(s, t) && q < |s| && q < |t| && s[..q] == t[..q]
    requires !s[q].changed && !t[q].changed
    ensures s[q].oldLen <= t[q].oldLen
  {
    SumsOfPrefix(s, t, q);
    assert ProperSpan(s[q]) && ProperSpan(t[q]);
    var n := t[q].oldLen;
    if n < s[q].oldLen {
      SumsMonotone(s, q + 1, |s|);
      assert q + 1 < |t|;
      ShortChangeAfter(s, t, q);
      ImageAt(s, q, SumOld(s, q) + n);
      ImageAt(t, q + 1, SumOld(s, q) + n);
    }
  }

  /** What follows in the other log is a change of one unit on each side. */
  lemma ShortChangeAfter(s: seq<Span>, t: seq<Span>, q: nat)
    requires Proper(s) && Proper(t) && Normal(t) && Alike(s, t) && q < |s| && q + 1 < |t|
    requires SumOld(s, q) == SumOld(t, q) && SumNew(s, q) == SumNew(t, q)
    requires !s[q].changed && !t[q].changed && t[q].oldLen < s[q].oldLen
    ensures t[q + 1].changed && t[q + 1].oldLen == 1
  {
    hide Image;
    assert ProperSpan(s[q]) && ProperSpan(t[q]) && ProperSpan(t[q + 1]);
    var n := t[q].oldLen;
    InsideIsCut(s, q + 1, n + 1);
    CutAround(t, q + 2, SumOld(s, q) + n + 1, SumNew(s, q) + n + 1);
    BoundaryIsCut(t, q + 2);
    CutAround(s, q + 1, SumOld(t, q + 2), SumNew(t, q + 2));
  }

  /** If one is not at its end, then neither is the other. */
  lemma EndAgrees(s: seq<Span>, t: seq<Span>, q: nat)
    requires Proper(s) && Alike(s, t) && q < |s| && q <= |t| && s[..q] == t[..q]
    ensures q < |t|
  {
    SumsOfPrefix(s, t, q);
    assert ProperSpan(s[q]);
    SumsMonotone(s, q + 1, |s|);
  }

  /** Logs that are alike are equal, so what is proved of a merge determines all of its spans. */
  lemma {:induction false} AlikeIsEqual(s: seq<Span>, t: seq<Span>, q: nat)
    requires Proper(s) && Proper(t) && Normal(s) && Normal(t) && Alike(s, t)
    requires q <= |s| && q <= |t| && s[..q] == t[..q]
    ensures s == t
    decreases |s| - q
  {
    hide Alike, Normal, Proper;
    if q < |s| {
      EndAgrees(s, t, q);
      AlikeBack(s, t);
      if s[q].changed {
        ChangeAgrees(s, t, q);
        ChangeNoLonger(s, t, q);
        ChangeNoLonger(t, s, q);
      } else {
        if t[q].changed {
          ChangeAgrees(t, s, q);
        }
        UnchangedNoLonger(s, t, q);
        UnchangedNoLonger(t, s, q);
        UnchangedLength(s, q);
        UnchangedLength(t, q);
      }
      assert s[..q + 1] == s[..q] + [s[q]] && t[..q + 1] == t[..q] + [t[q]];
      AlikeIsEqual(s, t, q + 1);
    } else if q < |t| {
      AlikeBack(s, t);
      EndAgrees(t, s, q);
    } else {
      assert s == s[..q] && t == t[..q];
    }
  }

  lemma AlikeBack(s: seq<Span>, t: seq<Span>)
    requires Alike(s, t)
    ensures Alike(t, s)
  {
  }

  lemma UnchangedLength(s: seq<Span>, q: nat)
    requires Proper(s) && q < |s| && !s[q].changed
    ensures s[q].oldLen == s[q].newLen
  {
    assert ProperSpan(s[q]);
  }

  /** Two logs that both are the composition of the same logs are equal. */
  lemma MergeIsDetermined(s: seq<Span>, t: seq<Span>, ab: seq<Span>, bc: seq<Span>)
    requires Proper(s) && Proper(t) && Normal(s) && Normal(t)
    requires Merged([], s, ab, bc, Total(ab, true), Total(bc, false)) && CutsMerged([], s, ab, bc)
    requires Merged([], t, ab, bc, Total(ab, true), Total(bc, false)) && CutsMerged([], t, ab, bc)
    ensures s == t
  {
    hide Image, Cut, JointCut;
    assert Total([], true) == 0 && Total([], false) == 0 by {
      StartMonotone([], 0, 0, true);
      StartMonotone([], 0, 0, false);
    }
    forall x: nat, y: nat
      ensures Cut(s, x, y) <==> Cut(t, x, y)
    {
      assert Cut(s, Total([], true) + x, Total([], false) + y) <==> JointCut(ab, bc, x, y);
      assert Cut(t, Total([], true) + x, Total([], false) + y) <==> JointCut(ab, bc, x, y);
    }
    forall i: nat
      ensures Image(s, i) == Image(t, i)
    {
      if i < Total(ab, true) {
        assert Image(s, Total([], true) + i) == Shifted(Composed(ab, bc, i), Total([], false));
        assert Image(t, Total([], true) + i) == Shifted(Composed(ab, bc, i), Total([], false));
      } else {
        BeyondEnd(s, i);
        BeyondEnd(t, i);
      }
    }
    AlikeIsEqual(s, t, 0);
  }

  lemma BeyondEnd(s: seq<Span>, i: nat)
    requires Total(s, true) <= i
    ensures Image(s, i) == None
  {
  }

  // ----- a deletion and an insertion at the same place

  lemma SumsOfOne(x: Span)
    ensures SumOld([x], 0) == 0 && SumOld([x], 1) == x.oldLen && SumNew([x], 0) == 0 && SumNew([x], 1) == x.newLen
  {
    assert [x][0] == x;
    assert SumOld([x], 1) == SumOld([x], 0) + x.oldLen && SumNew([x], 1) == SumNew([x], 0) + x.newLen;
  }

  /** One change can be cut at its ends. */
  lemma CutsOfChange(x: Span, i: nat, j: nat)
    requires x.changed
    ensures Cut([x], i, j) <==> (i == 0 && j == 0) || (i == x.oldLen && j == x.newLen)
  {
    SumsOfOne(x);
    hide SumOld, SumNew;
    if (i == 0 && j == 0) || (i == x.oldLen && j == x.newLen) {
      assert CutAt([x], 0, i, j) || CutAt([x], 1, i, j);
    }
  }

  lemma CutsOfTwoChanges(x: Span, y: Span, i: nat, j: nat)
    requires x.changed && y.changed
    ensures SumOld([x, y], 2) == x.oldLen + y.oldLen && SumNew([x, y], 2) == x.newLen + y.newLen
    ensures Cut([x, y], i, j) <==>
            (i == 0 && j == 0) || (i == x.oldLen && j == x.newLen) ||
            (i == x.oldLen + y.oldLen && j == x.newLen + y.newLen)
  {
    var s := [x, y];
    assert SumOld(s, 1) == SumOld(s, 0) + x.oldLen && SumNew(s, 1) == SumNew(s, 0) + x.newLen;
    assert SumOld(s, 2) == SumOld(s, 1) + y.oldLen && SumNew(s, 2) == SumNew(s, 1) + y.newLen;
    assert SumOld(s, 0) == 0 && SumNew(s, 0) == 0;
    hide SumOld, SumNew;
    if i == 0 && j == 0 {
      assert CutAt(s, 0, i, j);
    } else if i == x.oldLen && j == x.newLen {
      assert CutAt(s, 1, i, j);
    } else if i == x.oldLen + y.oldLen && j == x.newLen + y.newLen {
      assert CutAt(s, 2, i, j);
    }
  }

  /** All of `m` units deleted, and `n` inserted in their place: the insertion is recorded before the deletion. */
  lemma InsertionBeforeDeletion(s: seq<Span>, m: nat, n: nat)
    requires 0 < m && 0 < n && Proper(s) && Normal(s)
    requires Merged([], s, [Span(true, m, 0)], [Span(true, 0, n)], m, n)
    requires CutsMerged([], s, [Span(true, m, 0)], [Span(true, 0, n)])
    ensures s == [Span(true, 0, n), Span(true, m, 0)]
  {
    var deletion, insertion := Span(true, m, 0), Span(true, 0, n);
    var t := [insertion, deletion];
    SumsOfOne(deletion);
    SumsOfOne(insertion);
    CutsOfTwoChanges(insertion, deletion, 0, 0);
    hide SumOld, SumNew;
    assert Total([], true) == 0 && Total([], false) == 0 by {
      StartMonotone([], 0, 0, true);
      StartMonotone([], 0, 0, false);
    }
    forall i: nat, j: nat
      ensures Cut(t, i, j) <==> JointCut([deletion], [insertion], i, j)
    {
      JointOfDeletion(m, n, i, j);
      CutsOfTwoChanges(insertion, deletion, i, j);
    }
    forall i: nat | i < m
      ensures Image(t, i) == None && Composed([deletion], [insertion], i) == None
    {
      AllChangedImage(t, i);
      AllChangedImage([deletion], i);
    }
    assert Merged([], t, [deletion], [insertion], m, n);
    MergeIsDetermined(s, t, [deletion], [insertion]);
  }

  lemma AllChangedImage(s: seq<Span>, i: nat)
    requires forall k :: 0 <= k < |s| ==> s[k].changed
    ensures Image(s, i) == None
  {
  }

  lemma JointOfDeletion(m: nat, n: nat, i: nat, j: nat)
    requires 0 < m && 0 < n
    ensures JointCut([Span(true, m, 0)], [Span(true, 0, n)], i, j) <==>
            (i == 0 && j == 0) || (i == 0 && j == n) || (i == m && j == n)
  {
    var ab, bc := [Span(true, m, 0)], [Span(true, 0, n)];
    forall x: nat, y: nat
      ensures Cut(ab, x, y) <==> (x == 0 || x == m) && y == 0
      ensures Cut(bc, x, y) <==> x == 0 && (y == 0 || y == n)
    {
      CutsOfChange(ab[0], x, y);
      CutsOfChange(bc[0], x, y);
    }
    hide Cut;
    assert Cut(ab, 0, 0) && Cut(bc, 0, n);
    assert JointAt(ab, bc, i, 0, j) <==> (i == 0 && j == 0) || (i == 0 && j == n) || (i == m && j == n);
  }
}
