/**
 The meaning of a log of text edits: a list of spans, each either unchanged text or the
 replacement of `oldLen` text units by `newLen` others. Everything an iterator over the log
 reports, and every index mapping, is a function of this list.
 */
module EditSpans {
  import opened Common

  datatype Span = Span(changed: bool, oldLen: nat, newLen: nat)

  /** No span is empty on both sides, and unchanged text has one length. */
  ghost predicate ProperSpan(x: Span) {
    0 < x.oldLen + x.newLen && (x.changed || x.oldLen == x.newLen)
  }

  ghost predicate Proper(spans: seq<Span>) {
    forall k :: 0 <= k < |spans| ==> ProperSpan(spans[k])
  }

  /** Length of the old text before span `k`. */
  ghost function SumOld(spans: seq<Span>, k: nat): nat
    requires k <= |spans|
  {
    if k == 0 then 0 else SumOld(spans, k - 1) + spans[k - 1].oldLen
  }

  /** Length of the new text before span `k`. */
  ghost function SumNew(spans: seq<Span>, k: nat): nat
    requires k <= |spans|
  {
    if k == 0 then 0 else SumNew(spans, k - 1) + spans[k - 1].newLen
  }

  /** Length of the replacement text before span `k`: the new text of changed spans only. */
  ghost function SumRepl(spans: seq<Span>, k: nat): nat
    requires k <= |spans|
  {
    if k == 0 then 0
    else SumRepl(spans, k - 1) + (if spans[k - 1].changed then spans[k - 1].newLen else 0)
  }

  /** The three text lengths before span `k`. */
  ghost function Sums(spans: seq<Span>, k: nat): (nat, nat, nat)
    requires k <= |spans|
  {
    (SumOld(spans, k), SumNew(spans, k), SumRepl(spans, k))
  }

  /** Text lengths depend on the spans before alone. */
  lemma {:induction false} SumsOfPrefix(s: seq<Span>, t: seq<Span>, k: nat)
    requires k <= |s| && k <= |t|
    requires forall j :: 0 <= j < k ==> s[j] == t[j]
    ensures Sums(s, k) == Sums(t, k)
  {
    if k > 0 {
      SumsOfPrefix(s, t, k - 1);
    }
  }

  lemma {:induction false} SumsMonotone(spans: seq<Span>, j: nat, k: nat)
    requires j <= k <= |spans|
    ensures SumOld(spans, j) <= SumOld(spans, k)
    ensures SumNew(spans, j) <= SumNew(spans, k)
    ensures SumRepl(spans, j) <= SumRepl(spans, k)
    decreases k
  {
    if j < k {
      SumsMonotone(spans, j, k - 1);
    }
  }

  /** Which spans are changes. */
  ghost function Changes(spans: seq<Span>): set<nat> {
    set k: nat | k < |spans| && spans[k].changed
  }

  /** Appending a change makes it one more, and appending unchanged text leaves their number. */
  lemma ChangesAppend(spans: seq<Span>, x: Span)
    ensures |Changes(spans + [x])| == |Changes(spans)| + (if x.changed then 1 else 0)
  {
    var s := spans + [x];
    assert forall k :: 0 <= k < |spans| ==> s[k] == spans[k];
    assert Changes(s) == if x.changed then Changes(spans) + {|spans|} else Changes(spans);
  }

  /** Only a log without changes counts none. */
  lemma CountsAnyChange(spans: seq<Span>)
    ensures |Changes(spans)| != 0 <==> exists k :: 0 <= k < |spans| && spans[k].changed
  {
    if k :| 0 <= k < |spans| && spans[k].changed {
      assert k in Changes(spans);
    } else {
      assert Changes(spans) == {};
    }
  }

  /** Position on the chosen side (old or new text) where span `k` starts. */
  ghost function Start(spans: seq<Span>, k: nat, source: bool): nat
    requires k <= |spans|
  {
    if source then SumOld(spans, k) else SumNew(spans, k)
  }

  ghost function Length(x: Span, source: bool): nat {
    if source then x.oldLen else x.newLen
  }

  ghost function Total(spans: seq<Span>, source: bool): nat {
    Start(spans, |spans|, source)
  }

  lemma StartAt(spans: seq<Span>, k: nat, source: bool)
    requires k < |spans|
    ensures Start(spans, k + 1, source) == Start(spans, k, source) + Length(spans[k], source)
  {
  }

  lemma StartMonotone(spans: seq<Span>, j: nat, k: nat, source: bool)
    requires j <= k <= |spans|
    ensures Start(spans, 0, source) == 0 <= Start(spans, j, source) <= Start(spans, k, source) <= Total(spans, source)
  {
    SumsMonotone(spans, j, k);
    SumsMonotone(spans, k, |spans|);
  }

  /** Span `k` is the one that contains position `i` of the chosen side. */
  ghost predicate Holds(spans: seq<Span>, k: nat, i: int, source: bool) {
    k < |spans| && Start(spans, k, source) <= i < Start(spans, k + 1, source)
  }

  /** At most one span contains a given position. */
  lemma HoldsUnique(spans: seq<Span>, j: nat, k: nat, i: int, source: bool)
    requires Holds(spans, j, i, source) && Holds(spans, k, i, source)
    ensures j == k
  {
    if j < k {
      StartMonotone(spans, j + 1, k, source);
    } else if k < j {
      StartMonotone(spans, k + 1, j, source);
    }
  }

  /** The span that contains `i`, found by a scan from the first span on. */
  ghost function SpanAt(spans: seq<Span>, i: nat, source: bool): (k: nat)
    requires i < Total(spans, source)
    ensures Holds(spans, k, i, source)
  {
    SpanAtFrom(spans, 0, i, source)
  }

  ghost function SpanAtFrom(spans: seq<Span>, from: nat, i: nat, source: bool): (k: nat)
    requires from <= |spans|
    requires Start(spans, from, source) <= i < Total(spans, source)
    ensures Holds(spans, k, i, source)
    decreases |spans| - from
  {
    if i < Start(spans, from + 1, source) then from else SpanAtFrom(spans, from + 1, i, source)
  }

  /** The span that contains `i` is the one a scan finds. */
  lemma HoldsIsSpanAt(spans: seq<Span>, k: nat, i: nat, source: bool)
    requires Holds(spans, k, i, source)
    ensures i < Total(spans, source) && k == SpanAt(spans, i, source)
  {
    StartMonotone(spans, k + 1, |spans|, source);
    HoldsUnique(spans, k, SpanAt(spans, i, source), i, source);
  }

  /**
   The index on the other side for index `i` on this side: positions inside unchanged text
   correspond one to one, the start of a change maps to its start and its inside to its end.
   Indexes before the text map to 0 and indexes at or after its end map to the other end.
   */
  ghost function MapIndex(spans: seq<Span>, i: int, source: bool): nat {
    if i < 0 then 0
    else if i >= Total(spans, source) then Total(spans, !source)
    else
      var k := SpanAt(spans, i, source);
      var start := Start(spans, k, source);
      if i == start then Start(spans, k, !source)
      else if spans[k].changed then Start(spans, k + 1, !source)
      else Start(spans, k, !source) + (i - start)
  }

  /** The destination of source position `i` if it lies in unchanged text. */
  ghost function Image(spans: seq<Span>, i: nat): Option<nat> {
    if i >= Total(spans, true) then None
    else
      var k := SpanAt(spans, i, true);
      if spans[k].changed then None else Some(SumNew(spans, k) + (i - SumOld(spans, k)))
  }

  /**
   The spans describe the transformation of text `a` into text `c`: lengths add up, and
   unchanged spans carry equal text.
   */
  ghost predicate Describes<T(!new)>(spans: seq<Span>, a: seq<T>, c: seq<T>) {
    |a| == Total(spans, true) && |c| == Total(spans, false) &&
    forall i: nat :: i < |a| && Image(spans, i).Some? ==>
      Image(spans, i).value < |c| && a[i] == c[Image(spans, i).value]
  }

  lemma ImageAt(spans: seq<Span>, k: nat, i: nat)
    requires Holds(spans, k, i, true)
    ensures Image(spans, i) == if spans[k].changed then None else Some(SumNew(spans, k) + (i - SumOld(spans, k)))
  {
    HoldsIsSpanAt(spans, k, i, true);
  }

  /** The replacement text of the first `k` spans, where `c` is the new text: that of the changes alone. */
  ghost function Replacements<T>(spans: seq<Span>, k: nat, c: seq<T>): (r: seq<T>)
    requires k <= |spans| && Total(spans, false) <= |c|
  {
    if k == 0 then []
    else
      SumsMonotone(spans, k, |spans|);
      Replacements(spans, k - 1, c) +
      if spans[k - 1].changed then c[SumNew(spans, k - 1)..SumNew(spans, k)] else []
  }

  /** The replacement of a change stands in the replacement text at its replacement index. */
  lemma {:induction false} ReplacementAt<T>(spans: seq<Span>, j: nat, k: nat, c: seq<T>)
    requires j < k <= |spans| && Total(spans, false) <= |c| && spans[j].changed
    ensures SumNew(spans, j) <= SumNew(spans, j + 1) <= |c|
    ensures SumRepl(spans, j + 1) <= |Replacements(spans, k, c)| == SumRepl(spans, k)
    ensures Replacements(spans, k, c)[SumRepl(spans, j)..SumRepl(spans, j + 1)] ==
            c[SumNew(spans, j)..SumNew(spans, j + 1)]
  {
    hide Replacements;
    SumsMonotone(spans, j + 1, |spans|);
    SumsMonotone(spans, j + 1, k);
    ReplacementsLength(spans, k, c);
    ReplacementsLength(spans, k - 1, c);
    var before, more := Replacements(spans, k - 1, c), LastReplacement(spans, k, c);
    if j + 1 == k {
      assert (before + more)[|before|..] == more;
    } else {
      ReplacementAt(spans, j, k - 1, c);
      SliceOfFirst(before, more, SumRepl(spans, j), SumRepl(spans, j + 1));
    }
  }

  lemma SliceOfFirst<T>(s: seq<T>, t: seq<T>, i: nat, j: nat)
    requires i <= j <= |s|
    ensures (s + t)[i..j] == s[i..j]
  {
    assert |(s + t)[i..j]| == j - i;
    assert forall x :: 0 <= x < j - i ==> (s + t)[i..j][x] == s[i + x];
  }

  /** What the last of `k` spans adds to the replacement text. */
  ghost function LastReplacement<T>(spans: seq<Span>, k: nat, c: seq<T>): (r: seq<T>)
    requires 0 < k <= |spans| && Total(spans, false) <= |c|
    ensures Replacements(spans, k, c) == Replacements(spans, k - 1, c) + r
    ensures spans[k - 1].changed ==> SumNew(spans, k) <= |c| && r == c[SumNew(spans, k - 1)..SumNew(spans, k)]
  {
    SumsMonotone(spans, k, |spans|);
    if spans[k - 1].changed then c[SumNew(spans, k - 1)..SumNew(spans, k)] else []
  }

  lemma {:induction false} ReplacementsLength<T>(spans: seq<Span>, k: nat, c: seq<T>)
    requires k <= |spans| && Total(spans, false) <= |c|
    ensures |Replacements(spans, k, c)| == SumRepl(spans, k)
  {
    if k > 0 {
      SumsMonotone(spans, k, |spans|);
      ReplacementsLength(spans, k - 1, c);
    }
  }

  /** An image lies in the new text. */
  lemma ImageInRange(spans: seq<Span>, i: nat)
    requires Proper(spans) && Image(spans, i).Some?
    ensures i < Total(spans, true) && Image(spans, i).value < Total(spans, false)
  {
    var k := SpanAt(spans, i, true);
    assert ProperSpan(spans[k]);
    StartMonotone(spans, k + 1, |spans|, false);
  }

  /**
   Inside unchanged text the two index mappings are inverse to each other, and both agree
   with the correspondence of text units.
   */
  lemma MapIndexRoundTrip(spans: seq<Span>, i: nat)
    requires Proper(spans) && Image(spans, i).Some?
    ensures MapIndex(spans, i, true) == Image(spans, i).value
    ensures MapIndex(spans, MapIndex(spans, i, true), false) == i
  {
    ImageInRange(spans, i);
    var k := SpanAt(spans, i, true);
    assert ProperSpan(spans[k]);
    var j := MapIndex(spans, i, true);
    assert Holds(spans, k, j, false);
    HoldsIsSpanAt(spans, k, j, false);
  }

  /** An index inside a span maps into the closed range of that span on the other side. */
  lemma MapIndexWithin(spans: seq<Span>, i: nat, source: bool)
    requires Proper(spans) && i < Total(spans, source)
    ensures var k := SpanAt(spans, i, source);
            Start(spans, k, !source) <= MapIndex(spans, i, source) <= Start(spans, k + 1, !source) &&
            Start(spans, k + 1, !source) <= Total(spans, !source)
  {
    var k := SpanAt(spans, i, source);
    assert ProperSpan(spans[k]);
    StartMonotone(spans, k + 1, |spans|, !source);
  }

  /** The start of a span, changed or not, maps to its start on the other side. */
  lemma MapIndexOfStart(spans: seq<Span>, k: nat, source: bool)
    requires k < |spans| && 0 < Length(spans[k], source)
    ensures MapIndex(spans, Start(spans, k, source), source) == Start(spans, k, !source)
  {
    HoldsIsSpanAt(spans, k, Start(spans, k, source), source);
  }

  /** Behind its start, an index in a change maps to the end of the change on the other side. */
  lemma MapIndexInsideChange(spans: seq<Span>, k: nat, i: nat, source: bool)
    requires Holds(spans, k, i, source) && spans[k].changed && Start(spans, k, source) < i
    ensures MapIndex(spans, i, source) == Start(spans, k + 1, !source)
  {
    HoldsIsSpanAt(spans, k, i, source);
  }

  /** An index in unchanged text keeps its distance from the start of its span. */
  lemma MapIndexInsideUnchanged(spans: seq<Span>, k: nat, i: nat, source: bool)
    requires Holds(spans, k, i, source) && !spans[k].changed
    ensures MapIndex(spans, i, source) - Start(spans, k, !source) == i - Start(spans, k, source)
  {
    HoldsIsSpanAt(spans, k, i, source);
  }

  /** Indexes in front of the text map to its start, and those behind it to the end on the other side. */
  lemma MapIndexOutside(spans: seq<Span>, i: int, source: bool)
    requires i < 0 || Total(spans, source) <= i
    ensures MapIndex(spans, i, source) == if i < 0 then 0 else Total(spans, !source)
  {
  }

  /**
   For an interval that meets a change, from `i` at or before the start of the change to `j`
   behind its start or at its end, the images of both ends enclose the text on the other side
   as a whole.
   */
  lemma MapIndexEncloses(spans: seq<Span>, k: nat, i: int, j: int, source: bool)
    requires Proper(spans) && k < |spans| && spans[k].changed
    requires i <= Start(spans, k, source) && i < Start(spans, k + 1, source)
    requires Start(spans, k, source) < j || Start(spans, k + 1, source) <= j
    ensures MapIndex(spans, i, source) <= Start(spans, k, !source)
    ensures Start(spans, k + 1, !source) <= MapIndex(spans, j, source)
  {
    if 0 <= i {
      MapsUpToStart(spans, k, i, source);
    }
    if j < Total(spans, source) {
      MapsFromEnd(spans, k, j, source);
    } else {
      StartMonotone(spans, k + 1, |spans|, !source);
    }
  }

  lemma MapsUpToStart(spans: seq<Span>, k: nat, i: nat, source: bool)
    requires Proper(spans) && k < |spans| && i <= Start(spans, k, source) && i < Start(spans, k + 1, source)
    ensures MapIndex(spans, i, source) <= Start(spans, k, !source)
  {
    StartMonotone(spans, k + 1, |spans|, source);
    var h := SpanAt(spans, i, source);
    MapIndexWithin(spans, i, source);
    if k < h {
      StartMonotone(spans, k + 1, h, source);
    } else if h < k {
      StartMonotone(spans, h + 1, k, !source);
    }
  }

  lemma MapsFromEnd(spans: seq<Span>, k: nat, j: nat, source: bool)
    requires Proper(spans) && k < |spans| && spans[k].changed && j < Total(spans, source)
    requires Start(spans, k, source) < j || Start(spans, k + 1, source) <= j
    ensures Start(spans, k + 1, !source) <= MapIndex(spans, j, source)
  {
    var h := SpanAt(spans, j, source);
    MapIndexWithin(spans, j, source);
    if h < k {
      StartMonotone(spans, h + 1, k, source);
    } else if k < h {
      StartMonotone(spans, k + 1, h, !source);
    }
  }

  /** Both index mappings are monotone over the whole index range. */
  lemma MapIndexMonotone(spans: seq<Span>, i: int, j: int, source: bool)
    requires Proper(spans) && i <= j
    ensures MapIndex(spans, i, source) <= MapIndex(spans, j, source) <= Total(spans, !source)
  {
    var total := Total(spans, source);
    if 0 <= j < total {
      MapIndexWithin(spans, j, source);
      if 0 <= i {
        MapIndexWithin(spans, i, source);
        var ki, kj := SpanAt(spans, i, source), SpanAt(spans, j, source);
        if kj < ki {
          StartMonotone(spans, kj + 1, ki, source);
        } else if ki < kj {
          StartMonotone(spans, ki + 1, kj, !source);
        }
      }
    } else if 0 <= i < total {
      MapIndexWithin(spans, i, source);
    }
  }
}
