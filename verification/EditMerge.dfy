/**
 Why the composition of two edit logs is right, `Edits::mergeAndAppend` in
 `icu/common/edits.cpp`: log `ab` turns text a into text b, log `bc` turns b into c, and each
 step of the merge keeps track of how far it has come in all three texts.
 */
module EditMerge {
  import opened Common
  import opened EditSpans
  import opened EditRecords

  /** Where text position `i` of a ends up in c, if it is unchanged all the way. */
  ghost function Composed(ab: seq<Span>, bc: seq<Span>, i: nat): Option<nat> {
    match Image(ab, i)
    case None => None
    case Some(j) => Image(bc, j)
  }

  /** The first `k` of the `more` spans appended to a log. */
  ghost function PushAll(spans: seq<Span>, more: seq<Span>, k: nat): seq<Span>
    requires k <= |more|
  {
    if k == 0 then spans else Push(PushAll(spans, more, k - 1), more[k - 1], false)
  }

  /** `spans` records `from` followed by the composition of `ab` and `bc` up to positions `a` and `c`. */
  ghost predicate Merged(from: seq<Span>, spans: seq<Span>, ab: seq<Span>, bc: seq<Span>, a: nat, c: nat) {
    Total(spans, true) == Total(from, true) + a && Total(spans, false) == Total(from, false) + c &&
    (forall i: nat :: i < Total(from, true) ==> Image(spans, i) == Image(from, i)) &&
    (forall i: nat :: i < a ==> Image(spans, Total(from, true) + i) == Shifted(Composed(ab, bc, i), Total(from, false)))
  }

  ghost function Shifted(j: Option<nat>, offset: nat): Option<nat> {
    match j
    case None => None
    case Some(k) => Some(offset + k)
  }

  /**
   The local variables of the merge: how many spans of each log have been fetched, what is
   left of the last ones, the lengths of the change that is being accumulated, and the
   positions reached in the three texts.
   */
  datatype Progress = Progress(
    k: nat, aLength: nat, ab_bLength: nat,
    m: nat, bc_bLength: nat, cLength: nat,
    pendingA: nat, pendingC: nat,
    a: nat, b: nat, c: nat)

  /** After `k` fetched spans of `s`, `oldRest`:`newRest` of the last is left before positions `x` and `y`. */
  ghost predicate OnSpan(s: seq<Span>, k: nat, active: bool, oldRest: nat, newRest: nat, x: nat, y: nat) {
    k <= |s| &&
    SumOld(s, k) == x + (if active then oldRest else 0) &&
    SumNew(s, k) == y + (if active then newRest else 0) &&
    (active ==>
       0 < k && oldRest <= s[k - 1].oldLen && newRest <= s[k - 1].newLen &&
       (!s[k - 1].changed ==> oldRest == newRest))
  }

  ghost predicate Positioned(ab: seq<Span>, bc: seq<Span>, p: Progress) {
    OnSpan(ab, p.k, p.ab_bLength > 0, p.aLength, p.ab_bLength, p.a, p.b) &&
    OnSpan(bc, p.m, p.bc_bLength > 0, p.bc_bLength, p.cLength, p.b, p.c) &&
    p.pendingA <= p.a && p.pendingC <= p.c
  }

  /** No position of a between `lo` and `hi` is unchanged all the way. */
  ghost predicate AllChanged(ab: seq<Span>, bc: seq<Span>, lo: nat, hi: nat) {
    forall i: nat :: lo <= i < hi ==> Composed(ab, bc, i) == None
  }

  /** All but the pending change has been recorded. */
  ghost predicate Recorded(from: seq<Span>, spans: seq<Span>, ab: seq<Span>, bc: seq<Span>, p: Progress)
    requires Positioned(ab, bc, p)
  {
    Merged(from, spans, ab, bc, p.a - p.pendingA, p.c - p.pendingC) &&
    AllChanged(ab, bc, p.a - p.pendingA, p.a)
  }

  /** The rest of the current span maps position by position, or not at all. */
  lemma OnSpanImage(s: seq<Span>, k: nat, oldRest: nat, newRest: nat, x: nat, y: nat, i: nat)
    requires Proper(s) && OnSpan(s, k, true, oldRest, newRest, x, y) && x <= i < x + oldRest
    ensures Image(s, i) == if s[k - 1].changed then None else Some(y + (i - x))
  {
    assert ProperSpan(s[k - 1]);
    ImageAt(s, k - 1, i);
  }

  lemma ImageOfPrefix(s: seq<Span>, t: seq<Span>, k: nat, i: nat)
    requires k <= |s| && k <= |t| && i < SumOld(s, k)
    requires forall j :: 0 <= j < k ==> s[j] == t[j]
    ensures Image(s, i) == Image(t, i)
  {
    SumsOfPrefix(s, t, k);
    SumsMonotone(s, k, |s|);
    var q := SpanAt(s, i, true);
    if k < q + 1 {
      SumsMonotone(s, k, q);
    }
    SumsOfPrefix(s, t, q);
    SumsOfPrefix(s, t, q + 1);
    SumsMonotone(t, q + 1, |t|);
    ImageAt(s, q, i);
    ImageAt(t, q, i);
  }

  /** Recording a change leaves the images of earlier positions alone and adds none. */
  lemma ImageAfterChange(s: seq<Span>, x: Span, i: nat)
    requires x.changed
    ensures i < Total(s, true) ==> Image(s + [x], i) == Image(s, i)
    ensures Total(s, true) <= i ==> Image(s + [x], i) == None
  {
    var t := s + [x];
    SumsOfPrefix(t, s, |s|);
    if i < Total(s, true) {
      ImageOfPrefix(t, s, |s|, i);
    } else if i < Total(t, true) {
      ImageAt(t, |s|, i);
    }
  }

  /** Recording unchanged text maps its positions one to one. */
  lemma ImageAfterUnchanged(s: seq<Span>, n: nat, i: nat)
    requires Proper(s) && 0 < n
    ensures var t := Push(s, Span(false, n, n), false);
            (i < Total(s, true) ==> Image(t, i) == Image(s, i)) &&
            (Total(s, true) <= i < Total(s, true) + n ==> Image(t, i) == Some(Total(s, false) + (i - Total(s, true))))
  {
    var t := Push(s, Span(false, n, n), false);
    var last := |t| - 1;
    SumsOfPrefix(t, s, last);
    if i < SumOld(t, last) {
      SumsMonotone(s, last, |s|);
      ImageOfPrefix(t, s, last, i);
    } else if i < Total(s, true) + n {
      if last < |s| {
        assert ProperSpan(s[last]);
      }
      ImageAt(t, last, i);
      if i < Total(s, true) {
        ImageAt(s, last, i);
      }
    }
  }

  // ----- the steps of the merge

  /** What a step keeps: positions, and what has been recorded. */
  ghost predicate Keeps(from: seq<Span>, spans: seq<Span>, ab: seq<Span>, bc: seq<Span>, p: Progress, q: Progress)
    requires Positioned(ab, bc, p)
  {
    Positioned(ab, bc, q) && (Recorded(from, spans, ab, bc, p) ==> Recorded(from, spans, ab, bc, q))
  }

  /** Fetching a span of `bc` that is not an insertion. */
  lemma FetchBc(from: seq<Span>, spans: seq<Span>, ab: seq<Span>, bc: seq<Span>, p: Progress)
    requires Proper(bc) && Positioned(ab, bc, p) && p.bc_bLength == 0 && p.m < |bc| && 0 < bc[p.m].oldLen
    ensures Keeps(from, spans, ab, bc, p, p.(m := p.m + 1, bc_bLength := bc[p.m].oldLen, cLength := bc[p.m].newLen))
  {
    assert ProperSpan(bc[p.m]);
  }

  /** Fetching an insertion of `bc` and adding it to the pending change. */
  lemma FetchInsertion(from: seq<Span>, spans: seq<Span>, ab: seq<Span>, bc: seq<Span>, p: Progress)
    requires Positioned(ab, bc, p) && p.bc_bLength == 0 && p.m < |bc| && bc[p.m].oldLen == 0
    ensures var n := bc[p.m].newLen;
            Keeps(from, spans, ab, bc, p, p.(m := p.m + 1, cLength := n, pendingC := p.pendingC + n, c := p.c + n))
  {
  }

  /** Fetching a span of `ab` that is not a deletion. */
  lemma FetchAb(from: seq<Span>, spans: seq<Span>, ab: seq<Span>, bc: seq<Span>, p: Progress)
    requires Proper(ab) && Positioned(ab, bc, p) && p.ab_bLength == 0 && p.k < |ab| && 0 < ab[p.k].newLen
    ensures Keeps(from, spans, ab, bc, p, p.(k := p.k + 1, aLength := ab[p.k].oldLen, ab_bLength := ab[p.k].newLen))
  {
    assert ProperSpan(ab[p.k]);
  }

  /** Fetching a deletion of `ab` and adding it to the pending change. */
  lemma FetchDeletion(from: seq<Span>, spans: seq<Span>, ab: seq<Span>, bc: seq<Span>, p: Progress)
    requires Proper(ab) && Positioned(ab, bc, p) && p.ab_bLength == 0 && p.k < |ab| && ab[p.k].newLen == 0
    ensures var n := ab[p.k].oldLen;
            Keeps(from, spans, ab, bc, p, p.(k := p.k + 1, aLength := n, pendingA := p.pendingA + n, a := p.a + n))
  {
    assert ProperSpan(ab[p.k]);
    forall i: nat | p.a <= i < p.a + ab[p.k].oldLen
      ensures Composed(ab, bc, i) == None
    {
      ImageAt(ab, p.k, i);
    }
  }

  /** A change of `ab`, or what is left of it, is never unchanged all the way. */
  lemma PendAbChange(from: seq<Span>, spans: seq<Span>, ab: seq<Span>, bc: seq<Span>, p: Progress, q: Progress)
    requires Proper(ab) && Positioned(ab, bc, p) && 0 < p.ab_bLength && ab[p.k - 1].changed
    requires Positioned(ab, bc, q) && q.a == p.a + p.aLength && q.a - q.pendingA == p.a - p.pendingA
    requires q.c - q.pendingC == p.c - p.pendingC
    ensures Keeps(from, spans, ab, bc, p, q)
  {
    forall i: nat | p.a <= i < q.a
      ensures Composed(ab, bc, i) == None
    {
      OnSpanImage(ab, p.k, p.aLength, p.ab_bLength, p.a, p.b, i);
    }
  }

  /** Neither is text that `ab` leaves unchanged but `bc` changes. */
  lemma PendBcChange(from: seq<Span>, spans: seq<Span>, ab: seq<Span>, bc: seq<Span>, p: Progress, q: Progress, n: nat)
    requires Proper(ab) && Proper(bc) && Positioned(ab, bc, p) && 0 < p.ab_bLength && !ab[p.k - 1].changed
    requires 0 < p.bc_bLength && bc[p.m - 1].changed && n <= p.ab_bLength && n <= p.bc_bLength
    requires Positioned(ab, bc, q) && q.a == p.a + n && q.a - q.pendingA == p.a - p.pendingA
    requires q.c - q.pendingC == p.c - p.pendingC
    ensures Keeps(from, spans, ab, bc, p, q)
  {
    forall i: nat | p.a <= i < q.a
      ensures Composed(ab, bc, i) == None
    {
      OnSpanImage(ab, p.k, p.aLength, p.ab_bLength, p.a, p.b, i);
      OnSpanImage(bc, p.m, p.bc_bLength, p.cLength, p.b, p.c, p.b + (i - p.a));
    }
  }

  /** Recording the pending change. */
  lemma Flush(from: seq<Span>, spans: seq<Span>, ab: seq<Span>, bc: seq<Span>, p: Progress)
    requires Positioned(ab, bc, p) && Recorded(from, spans, ab, bc, p)
    ensures var x := Span(true, p.pendingA, p.pendingC);
            var q := p.(pendingA := 0, pendingC := 0);
            Positioned(ab, bc, q) && Recorded(from, spans + [x], ab, bc, q) &&
            (p.pendingA == 0 && p.pendingC == 0 ==> Recorded(from, spans, ab, bc, q))
  {
    var x := Span(true, p.pendingA, p.pendingC);
    var t := spans + [x];
    SumsOfPrefix(t, spans, |spans|);
    forall i: nat
      ensures i < Total(spans, true) ==> Image(t, i) == Image(spans, i)
      ensures Total(spans, true) <= i ==> Image(t, i) == None
    {
      ImageAfterChange(spans, x, i);
    }
  }

  /** Recording text that both logs leave unchanged. */
  lemma RecordUnchanged(from: seq<Span>, spans: seq<Span>, ab: seq<Span>, bc: seq<Span>, p: Progress, n: nat)
    requires Proper(spans) && Proper(ab) && Proper(bc) && Positioned(ab, bc, p) && Recorded(from, spans, ab, bc, p)
    requires p.pendingA == 0 && p.pendingC == 0
    requires 0 < n <= p.ab_bLength && n <= p.bc_bLength && !ab[p.k - 1].changed && !bc[p.m - 1].changed
    ensures var q := p.(a := p.a + n, b := p.b + n, c := p.c + n,
                        aLength := p.aLength - n, ab_bLength := p.ab_bLength - n,
                        bc_bLength := p.bc_bLength - n, cLength := p.cLength - n);
            Positioned(ab, bc, q) && Recorded(from, Push(spans, Span(false, n, n), false), ab, bc, q)
  {
    hide Push, Image, SumOld, SumNew;
    var t := Push(spans, Span(false, n, n), false);
    PushSums(spans, Span(false, n, n), false);
    forall i: nat
      ensures i < Total(spans, true) ==> Image(t, i) == Image(spans, i)
      ensures Total(spans, true) <= i < Total(spans, true) + n ==>
                Image(t, i) == Some(Total(spans, false) + (i - Total(spans, true)))
    {
      ImageAfterUnchanged(spans, n, i);
    }
    forall i: nat | p.a <= i < p.a + n
      ensures Composed(ab, bc, i) == Some(p.c + (i - p.a))
    {
      OnSpanImage(ab, p.k, p.aLength, p.ab_bLength, p.a, p.b, i);
      OnSpanImage(bc, p.m, p.bc_bLength, p.cLength, p.b, p.c, p.b + (i - p.a));
    }
  }

  // ----- merging with a log that changes nothing

  /** The log changes nothing: it is empty, or one span of unchanged text. */
  ghost predicate Identity(s: seq<Span>) {
    s == [] || (|s| == 1 && !s[0].changed)
  }

  /** Exactly the spans of `s` fetched so far and not still current have been recorded. */
  ghost predicate Verbatim(from: seq<Span>, spans: seq<Span>, s: seq<Span>, k: nat, active: bool, oldRest: nat,
                           newRest: nat, pending: nat) {
    pending == 0 && k <= |s| &&
    if active then
      0 < k && oldRest == s[k - 1].oldLen && newRest == s[k - 1].newLen && spans == PushAll(from, s, k - 1)
    else
      spans == PushAll(from, s, k)
  }

  /** If `ab` changes nothing, the merge records `bc`. */
  ghost predicate VerbatimBc(from: seq<Span>, spans: seq<Span>, ab: seq<Span>, bc: seq<Span>, p: Progress) {
    Identity(ab) && Total(ab, false) == Total(bc, true) ==>
      Verbatim(from, spans, bc, p.m, p.bc_bLength > 0, p.bc_bLength, p.cLength, p.pendingA + p.pendingC)
  }

  /** If `bc` changes nothing, the merge records `ab`. */
  ghost predicate VerbatimAb(from: seq<Span>, spans: seq<Span>, ab: seq<Span>, bc: seq<Span>, p: Progress) {
    Identity(bc) && Total(ab, false) == Total(bc, true) ==>
      Verbatim(from, spans, ab, p.k, p.ab_bLength > 0, p.aLength, p.ab_bLength, p.pendingA + p.pendingC)
  }

  /** What is left of one log in b is no longer than what is left of the other log, if that is its only span. */
  lemma RestWithin(ab: seq<Span>, bc: seq<Span>, p: Progress)
    requires Positioned(ab, bc, p) && Total(ab, false) == Total(bc, true)
    ensures p.k == |ab| ==> p.bc_bLength <= p.ab_bLength
    ensures p.m == |bc| ==> p.ab_bLength <= p.bc_bLength
  {
    SumsMonotone(bc, p.m, |bc|);
    SumsMonotone(ab, p.k, |ab|);
  }

  /** A fetched change that is recorded as it is. */
  lemma VerbatimChange(from: seq<Span>, spans: seq<Span>, s: seq<Span>, k: nat, oldRest: nat, newRest: nat)
    requires 0 < k <= |s| && s[k - 1].changed && spans == PushAll(from, s, k - 1)
    requires oldRest == s[k - 1].oldLen && newRest == s[k - 1].newLen
    ensures Verbatim(from, spans + [Span(true, oldRest, newRest)], s, k, false, 0, 0, 0)
  {
  }

  /** A fetched span of unchanged text that is recorded as it is. */
  lemma VerbatimUnchanged(from: seq<Span>, spans: seq<Span>, s: seq<Span>, k: nat, n: nat)
    requires 0 < k <= |s| && !s[k - 1].changed && spans == PushAll(from, s, k - 1)
    requires n == s[k - 1].oldLen == s[k - 1].newLen
    ensures Verbatim(from, Push(spans, Span(false, n, n), false), s, k, false, 0, 0, 0)
  {
  }

  // ----- what the merge means for texts

  /** If `ab` turns text a into b, and `bc` turns b into c, then their composition turns a into c. */
  lemma MergedDescribes<T(!new)>(merged: seq<Span>, ab: seq<Span>, bc: seq<Span>, a: seq<T>, b: seq<T>, c: seq<T>)
    requires Merged([], merged, ab, bc, Total(ab, true), Total(bc, false))
    requires Describes(ab, a, b) && Describes(bc, b, c)
    ensures Describes(merged, a, c)
    ensures Total(merged, false) - Total(merged, true) ==
            (Total(ab, false) - Total(ab, true)) + (Total(bc, false) - Total(bc, true))
  {
    hide Image, SumOld, SumNew;
    assert Total([], true) == 0 && Total([], false) == 0 by {
      StartMonotone([], 0, 0, true);
      StartMonotone([], 0, 0, false);
    }
    forall i: nat | i < |a| && Image(merged, i).Some?
      ensures Image(merged, i).value < |c| && a[i] == c[Image(merged, i).value]
    {
      assert Image(merged, 0 + i) == Shifted(Composed(ab, bc, i), 0);
    }
  }

  /** Unchanged text is kept in maximal pieces. */
  ghost predicate Normal(s: seq<Span>) {
    forall k :: 0 < k < |s| ==> s[k - 1].changed || s[k].changed
  }

  lemma NormalPushRecord(spans: seq<Span>, r: Record)
    requires Normal(spans)
    ensures Normal(PushRecord(spans, r, false))
  {
    if r.Short? {
      PushTimesElements(spans, Span(true, r.oldLen, r.newLen), r.num);
      var s := PushRecord(spans, r, false);
      assert forall k :: 0 <= k < |spans| ==> s[k] == s[..|spans|][k];
    }
  }

  lemma {:induction false} SpansNormal(records: seq<Record>, e: nat)
    requires e <= |records|
    ensures Normal(SpansTo(records, false, e))
  {
    if e > 0 {
      SpansNormal(records, e - 1);
      NormalPushRecord(SpansTo(records, false, e - 1), records[e - 1]);
    }
  }

  /** Appending all spans of a log to an empty log copies it. */
  lemma {:induction false} PushAllCopies(s: seq<Span>, k: nat)
    requires Normal(s) && k <= |s|
    ensures PushAll([], s, k) == s[..k]
  {
    if k > 0 {
      PushAllCopies(s, k - 1);
      assert s[..k - 1] + [s[k - 1]] == s[..k];
    }
  }

  // ----- coarse spans

  /** Merging a change into the spans before it leaves the images of the positions before it. */
  lemma ImageAfterCoarseChange(s: seq<Span>, x: Span, i: nat)
    requires x.changed
    ensures i < Total(s, true) ==> Image(Push(s, x, true), i) == Image(s, i)
    ensures Total(s, true) <= i ==> Image(Push(s, x, true), i) == None
  {
    var t := Push(s, x, true);
    var last := |t| - 1;
    if last == |s| {
      ImageAfterChange(s, x, i);
    } else {
      SumsOfPrefix(t, s, last);
      if i < SumOld(t, last) {
        SumsMonotone(s, last, |s|);
        ImageOfPrefix(t, s, last, i);
      } else if i < Total(t, true) {
        ImageAt(t, last, i);
        if i < Total(s, true) {
          ImageAt(s, last, i);
        }
      }
    }
  }

  /** The first `k` spans and what they are merged to describe the same edits. */
  lemma {:induction false} CoarseSame(spans: seq<Span>, k: nat)
    requires Proper(spans) && k <= |spans|
    ensures var c := Coarsen(spans, k);
            Proper(c) && Total(c, true) == SumOld(spans, k) && Total(c, false) == SumNew(spans, k) &&
            forall i: nat :: i < SumOld(spans, k) ==> Image(c, i) == Image(spans, i)
  {
    hide Push, Image;
    if k == 0 {
      assert Coarsen(spans, k) == [];
    } else {
      CoarseSame(spans, k - 1);
      var before, x := Coarsen(spans, k - 1), spans[k - 1];
      assert ProperSpan(x);
      PushProper(before, x, true);
      PushSums(before, x, true);
      forall i: nat | i < SumOld(spans, k)
        ensures Image(Coarsen(spans, k), i) == Image(spans, i)
      {
        CoarseStep(spans, k, i);
      }
    }
  }

  lemma CoarseStep(spans: seq<Span>, k: nat, i: nat)
    requires 0 < k <= |spans| && i < SumOld(spans, k) && ProperSpan(spans[k - 1])
    requires var c := Coarsen(spans, k - 1);
             Proper(c) && Total(c, true) == SumOld(spans, k - 1) && Total(c, false) == SumNew(spans, k - 1) &&
             (i < SumOld(spans, k - 1) ==> Image(c, i) == Image(spans, i))
    ensures Image(Coarsen(spans, k), i) == Image(spans, i)
  {
    hide Image, Proper;
    var before, x := Coarsen(spans, k - 1), spans[k - 1];
    if x.changed {
      ImageAfterCoarseChange(before, x, i);
    } else {
      assert Push(before, x, true) == Push(before, Span(false, x.oldLen, x.oldLen), false);
      ImageAfterUnchanged(before, x.oldLen, i);
    }
    if SumOld(spans, k - 1) <= i {
      ImageAt(spans, k - 1, i);
    }
  }

  /** Changes and unchanged text take turns. */
  ghost predicate Alternating(s: seq<Span>) {
    forall i, j :: 0 <= i && i + 1 == j < |s| ==> s[i].changed != s[j].changed
  }

  lemma {:induction false} CoarseAlternate(spans: seq<Span>, k: nat)
    requires k <= |spans|
    ensures Alternating(Coarsen(spans, k))
  {
    if k > 0 {
      CoarseAlternate(spans, k - 1);
      var before, c := Coarsen(spans, k - 1), Coarsen(spans, k);
      forall i, j | 0 <= i && i + 1 == j < |c|
        ensures c[i].changed != c[j].changed
      {
        assert c[i].changed == before[i].changed;
        if j < |before| {
          assert c[j].changed == before[j].changed;
        }
      }
    }
  }

  /** Coarse spans alternate, and describe the same texts as the fine ones. */
  lemma CoarseDescribes<T(!new)>(spans: seq<Span>, a: seq<T>, c: seq<T>)
    requires Proper(spans)
    ensures Alternating(Coarsen(spans, |spans|))
    ensures Describes(Coarsen(spans, |spans|), a, c) <==> Describes(spans, a, c)
  {
    hide Image, Coarsen;
    CoarseAlternate(spans, |spans|);
    CoarseSame(spans, |spans|);
  }
}
