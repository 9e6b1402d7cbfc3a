/**
 Normalizing only the parts of a text that consist of certain characters,
 `icu/common/filterednormalizer2.cpp`. Texts are sequences of code points.
 */
module FilteredNormalizers {
  import opened Common

  type Text = seq<int>

  datatype QuickCheckResult = No | Maybe | Yes

  /** A normalizer, and what it promises. */
  datatype Normalizer = Normalizer(
    normalize: Text -> Text,
    normalizeSecondAndAppend: (Text, Text) -> Text,
    append: (Text, Text) -> Text,
    isNormalized: Text -> bool,
    quickCheck: Text -> QuickCheckResult,
    spanQuickCheckYes: Text -> nat)
  {
    /**
     Normalized text does not change; text appended to normalized text, normalized before or
     while it is appended, gives the normalized whole; the span that passes the quick check
     does pass it. The empty text is normalized.
     */
    ghost predicate Lawful() {
      isNormalized([]) && quickCheck([]) == Yes &&
      (forall x :: isNormalized(x) ==> normalize(x) == x) &&
      (forall x, y :: isNormalized(x) ==> normalizeSecondAndAppend(x, y) == normalize(x + y)) &&
      (forall x, y :: isNormalized(x) && isNormalized(y) ==> append(x, y) == normalize(x + y)) &&
      (forall x :: spanQuickCheckYes(x) <= |x| && quickCheck(x[..spanQuickCheckYes(x)]) == Yes)
    }

    /** The quick check is right where it decides. */
    ghost predicate Decides() {
      forall x :: (quickCheck(x) == Yes ==> isNormalized(x)) && (quickCheck(x) == No ==> !isNormalized(x))
    }
  }

  // ----- spans and runs

  /** The end of the longest span from `p` on whose characters are all in the set, or all not. */
  function Span(s: Text, p: nat, set_: int -> bool, contained: bool): (r: nat)
    requires p <= |s|
    ensures p <= r <= |s| && (forall k :: p <= k < r ==> set_(s[k]) == contained) &&
            (r < |s| ==> set_(s[r]) != contained)
    decreases |s| - p
  {
    if p < |s| && set_(s[p]) == contained then Span(s, p + 1, set_, contained) else p
  }

  /** The start of the longest such span before `p`. */
  function SpanBack(s: Text, p: nat, set_: int -> bool, contained: bool): (r: nat)
    requires p <= |s|
    ensures r <= p && (forall k :: r <= k < p ==> set_(s[k]) == contained) && (0 < r ==> set_(s[r - 1]) != contained)
  {
    if 0 < p && set_(s[p - 1]) == contained then SpanBack(s, p - 1, set_, contained) else p
  }

  /** Unfolding the two definitions above. */
  lemma AtEnd(n: Normalizer, set_: int -> bool, s: Text, c: Text -> bool)
    ensures Filtered(n, set_, s, |s|) == [] && EachRun(set_, s, |s|, c)
  {
  }

  lemma AtOther(n: Normalizer, set_: int -> bool, s: Text, p: nat, c: Text -> bool)
    requires p < |s| && !set_(s[p])
    ensures Filtered(n, set_, s, p) == [s[p]] + Filtered(n, set_, s, p + 1) &&
            EachRun(set_, s, p, c) == EachRun(set_, s, p + 1, c)
  {
  }

  lemma AtRun(n: Normalizer, set_: int -> bool, s: Text, p: nat, c: Text -> bool)
    requires p < |s| && set_(s[p])
    ensures var q := Span(s, p, set_, true);
            p < q && Filtered(n, set_, s, p) == n.normalize(s[p..q]) + Filtered(n, set_, s, q) &&
            EachRun(set_, s, p, c) == (c(s[p..q]) && EachRun(set_, s, q, c))
  {
  }

  /** Two longest spans are the same. */
  lemma SpanIs(s: Text, p: nat, q: nat, set_: int -> bool, contained: bool)
    requires p <= q <= |s| && (forall k :: p <= k < q ==> set_(s[k]) == contained) &&
             (q < |s| ==> set_(s[q]) != contained)
    ensures Span(s, p, set_, contained) == q
  {
  }

  /** The text from `p` on, with each longest run of characters in the set normalized. */
  ghost function Filtered(n: Normalizer, set_: int -> bool, s: Text, p: nat): Text
    requires p <= |s|
    decreases |s| - p
  {
    if p == |s| then []
    else if !set_(s[p]) then [s[p]] + Filtered(n, set_, s, p + 1)
    else n.normalize(s[p..Span(s, p, set_, true)]) + Filtered(n, set_, s, Span(s, p, set_, true))
  }

  /** Each longest run from `p` on satisfies the condition. */
  ghost predicate EachRun(set_: int -> bool, s: Text, p: nat, c: Text -> bool)
    requires p <= |s|
    decreases |s| - p
  {
    p == |s| ||
    if !set_(s[p]) then EachRun(set_, s, p + 1, c)
    else c(s[p..Span(s, p, set_, true)]) && EachRun(set_, s, Span(s, p, set_, true), c)
  }

  /** Characters outside of the set are kept. */
  lemma {:induction false} SpanIsKept(n: Normalizer, set_: int -> bool, s: Text, p: nat, q: nat, c: Text -> bool)
    requires p <= q <= |s| && forall k :: p <= k < q ==> !set_(s[k])
    ensures Filtered(n, set_, s, p) == s[p..q] + Filtered(n, set_, s, q)
    ensures EachRun(set_, s, p, c) == EachRun(set_, s, q, c)
    decreases q - p
  {
    if p == q {
      assert s[p..q] == [];
    } else {
      SpanIsKept(n, set_, s, p + 1, q, c);
      assert s[p..q] == [s[p]] + s[p + 1..q];
    }
  }

  /** A weaker condition holds for the runs, too. */
  lemma {:induction false} RunsWeaken(set_: int -> bool, s: Text, p: nat, c: Text -> bool, d: Text -> bool)
    requires p <= |s| && EachRun(set_, s, p, c) && forall x :: c(x) ==> d(x)
    ensures EachRun(set_, s, p, d)
    decreases |s| - p
  {
    if p < |s| {
      RunsWeaken(set_, s, if set_(s[p]) then Span(s, p, set_, true) else p + 1, c, d);
    }
  }

  /** No run extends over the boundary of two texts. */
  ghost predicate Separate(set_: int -> bool, a: Text, b: Text) {
    a == [] || b == [] || !set_(a[|a| - 1]) || !set_(b[0])
  }

  lemma {:induction false} FilteredSecond(n: Normalizer, set_: int -> bool, a: Text, b: Text, p: nat, c: Text -> bool)
    requires p <= |b|
    ensures Filtered(n, set_, a + b, |a| + p) == Filtered(n, set_, b, p)
    ensures EachRun(set_, a + b, |a| + p, c) == EachRun(set_, b, p, c)
    decreases |b| - p
  {
    hide Span, Filtered, EachRun;
    var s := a + b;
    if p == |b| {
      AtEnd(n, set_, s, c);
      AtEnd(n, set_, b, c);
    } else if set_(b[p]) {
      var q := Span(b, p, set_, true);
      assert forall k :: p <= k < q ==> s[|a| + k] == b[k];
      SpanIs(s, |a| + p, |a| + q, set_, true);
      assert s[|a| + p..|a| + q] == b[p..q];
      FilteredSecond(n, set_, a, b, q, c);
      AtRun(n, set_, b, p, c);
      AtRun(n, set_, s, |a| + p, c);
    } else {
      FilteredSecond(n, set_, a, b, p + 1, c);
      AtOther(n, set_, b, p, c);
      AtOther(n, set_, s, |a| + p, c);
    }
  }

  lemma Regroup(a: Text, b: Text, c: Text, d: Text)
    ensures (a + b) + (c + d) == a + ((b + c) + d)
  {
  }

  /** Separate texts are normalized separately. */
  lemma {:induction false} FilteredConcat(n: Normalizer, set_: int -> bool, a: Text, b: Text, p: nat, c: Text -> bool)
    requires p <= |a| && Separate(set_, a, b)
    ensures Filtered(n, set_, a + b, p) == Filtered(n, set_, a, p) + Filtered(n, set_, b, 0)
    ensures EachRun(set_, a + b, p, c) == (EachRun(set_, a, p, c) && EachRun(set_, b, 0, c))
    decreases |a| - p
  {
    hide Span, Filtered, EachRun;
    var s := a + b;
    if p == |a| {
      FilteredSecond(n, set_, a, b, 0, c);
      AtEnd(n, set_, a, c);
    } else if !set_(a[p]) {
      FilteredConcat(n, set_, a, b, p + 1, c);
      AtOther(n, set_, a, p, c);
      AtOther(n, set_, s, p, c);
      Associate([a[p]], Filtered(n, set_, a, p + 1), Filtered(n, set_, b, 0));
    } else {
      var q := Span(a, p, set_, true);
      SpanIs(s, p, q, set_, true);
      assert s[p..q] == a[p..q];
      AtRun(n, set_, a, p, c);
      AtRun(n, set_, s, p, c);
      FilteredConcat(n, set_, a, b, q, c);
      Associate(n.normalize(a[p..q]), Filtered(n, set_, a, q), Filtered(n, set_, b, 0));
    }
  }

  /** A text within the set is one run. */
  lemma FilteredRun(n: Normalizer, set_: int -> bool, s: Text, c: Text -> bool)
    requires s != [] && forall k :: 0 <= k < |s| ==> set_(s[k])
    ensures Filtered(n, set_, s, 0) == n.normalize(s) && EachRun(set_, s, 0, c) == c(s)
  {
    SpanIs(s, 0, |s|, set_, true);
    assert s[0..|s|] == s;
    assert Filtered(n, set_, s, |s|) == [];
  }

  /** If each run is normalized, then nothing changes. */
  lemma {:induction false} NormalizedIsKept(n: Normalizer, set_: int -> bool, s: Text, p: nat)
    requires n.Lawful() && p <= |s| && EachRun(set_, s, p, n.isNormalized)
    ensures Filtered(n, set_, s, p) == s[p..]
    decreases |s| - p
  {
    hide Span, Filtered, EachRun, Normalizer.Lawful;
    if p == |s| {
      AtEnd(n, set_, s, n.isNormalized);
    } else if set_(s[p]) {
      var q := Span(s, p, set_, true);
      AtRun(n, set_, s, p, n.isNormalized);
      NormalizedText(n, s[p..q]);
      NormalizedIsKept(n, set_, s, q);
      assert s[p..] == s[p..q] + s[q..];
    } else {
      AtOther(n, set_, s, p, n.isNormalized);
      NormalizedIsKept(n, set_, s, p + 1);
      assert s[p..] == [s[p]] + s[p + 1..];
    }
  }

  lemma NormalizedText(n: Normalizer, x: Text)
    requires n.Lawful() && n.isNormalized(x)
    ensures n.normalize(x) == x
  {
  }

  /** The run at the end of a normalized text is normalized, and so is what comes before it. */
  lemma SuffixNormalized(n: Normalizer, set_: int -> bool, s: Text)
    requires n.Lawful() && EachRun(set_, s, 0, n.isNormalized)
    ensures var i := SpanBack(s, |s|, set_, true); n.isNormalized(s[i..]) && Filtered(n, set_, s[..i], 0) == s[..i]
  {
    hide Filtered, EachRun, SpanBack;
    var i := SpanBack(s, |s|, set_, true);
    var head, suffix := s[..i], s[i..];
    assert s == head + suffix;
    FilteredConcat(n, set_, head, suffix, 0, n.isNormalized);
    if suffix != [] {
      FilteredRun(n, set_, suffix, n.isNormalized);
    }
    NormalizedIsKept(n, set_, head, 0);
  }

  /** The run at the start of a normalized text is normalized, and so is what comes after it. */
  lemma PrefixNormalized(n: Normalizer, set_: int -> bool, s: Text)
    requires n.Lawful() && EachRun(set_, s, 0, n.isNormalized)
    ensures var i := Span(s, 0, set_, true); n.isNormalized(s[..i]) && Filtered(n, set_, s[i..], 0) == s[i..]
  {
    hide Filtered, EachRun, Span;
    var i := Span(s, 0, set_, true);
    var prefix, rest := s[..i], s[i..];
    assert s == prefix + rest;
    FilteredConcat(n, set_, prefix, rest, 0, n.isNormalized);
    if prefix != [] {
      FilteredRun(n, set_, prefix, n.isNormalized);
    }
    NormalizedIsKept(n, set_, rest, 0);
  }

  /** A run between two boundaries is normalized on its own. */
  lemma RunBetween(n: Normalizer, set_: int -> bool, head: Text, middle: Text, rest: Text)
    requires middle != [] && forall k :: 0 <= k < |middle| ==> set_(middle[k])
    requires (head == [] || !set_(head[|head| - 1])) && (rest == [] || !set_(rest[0]))
    ensures Filtered(n, set_, head + (middle + rest), 0) ==
            Filtered(n, set_, head, 0) + (n.normalize(middle) + Filtered(n, set_, rest, 0))
  {
    hide Filtered, EachRun;
    FilteredConcat(n, set_, head, middle + rest, 0, n.isNormalized);
    FilteredConcat(n, set_, middle, rest, 0, n.isNormalized);
    FilteredRun(n, set_, middle, n.isNormalized);
  }

  /** What the text up to the end of a merged run becomes. */
  ghost function Merged(n: Normalizer, set_: int -> bool, first: Text, second: Text): Text {
    var suffixStart, prefixLimit := SpanBack(first, |first|, set_, true), Span(second, 0, set_, true);
    if prefixLimit == 0 then first
    else first[..suffixStart] + n.normalize(first[suffixStart..] + second[..prefixLimit])
  }

  /** The characters in the set at the end of `first` and at the start of `second` make up one run. */
  lemma FilteredAppend(n: Normalizer, set_: int -> bool, first: Text, second: Text)
    requires n.Lawful() && EachRun(set_, first, 0, n.isNormalized)
    ensures Filtered(n, set_, first + second, 0) ==
            Merged(n, set_, first, second) + Filtered(n, set_, second[Span(second, 0, set_, true)..], 0)
  {
    hide Filtered, EachRun, Span, SpanBack, Normalizer.Lawful;
    var suffixStart, prefixLimit := SpanBack(first, |first|, set_, true), Span(second, 0, set_, true);
    var head, suffix, prefix, rest := first[..suffixStart], first[suffixStart..], second[..prefixLimit],
      second[prefixLimit..];
    if prefixLimit == 0 {
      assert rest == second;
      FilteredConcat(n, set_, first, second, 0, n.isNormalized);
      NormalizedIsKept(n, set_, first, 0);
      assert first[0..] == first;
    } else {
      SuffixNormalized(n, set_, first);
      Regroup(head, suffix, prefix, rest);
      assert first == head + suffix && second == prefix + rest;
      RunBetween(n, set_, head, suffix + prefix, rest);
      Associate(head, n.normalize(suffix + prefix), Filtered(n, set_, rest, 0));
      assert Merged(n, set_, first, second) == head + n.normalize(suffix + prefix);
    }
  }

  class FilteredNormalizer2 {
    const norm2: Normalizer
    const set_: int -> bool

    /** What this normalizer produces. */
    ghost function Normalized(s: Text): Text {
      Filtered(norm2, set_, s, 0)
    }

    constructor (norm2: Normalizer, set_: int -> bool)
      ensures this.norm2 == norm2 && this.set_ == set_
    {
      this.norm2, this.set_ := norm2, set_;
    }

    method Normalize(src: Text) returns (dest: Text)
      ensures dest == Normalized(src)
    {
      dest := NormalizeFrom(src, [], true);
    }

    /**
     Appends to `dest`, taking turns between runs in the set and out of it; with either kind
     first the result is the same.
     */
    method NormalizeFrom(src: Text, dest: Text, spanCondition: bool) returns (r: Text)
      ensures r == dest + Normalized(src)
    {
      r := dest;
      var contained := spanCondition;
      var prevSpanLimit := 0;
      while prevSpanLimit < |src|
        invariant prevSpanLimit <= |src| && r + Filtered(norm2, set_, src, prevSpanLimit) == dest + Normalized(src)
        decreases |src| - prevSpanLimit, if prevSpanLimit < |src| && set_(src[prevSpanLimit]) == contained then 0 else 1
      {
        var spanLimit := Span(src, prevSpanLimit, set_, contained);
        if !contained {
          SpanIsKept(norm2, set_, src, prevSpanLimit, spanLimit, norm2.isNormalized);
          if spanLimit != prevSpanLimit {
            r := r + src[prevSpanLimit..spanLimit];
          }
          contained := true;
        } else {
          if spanLimit != prevSpanLimit {
            r := r + norm2.normalize(src[prevSpanLimit..spanLimit]);
          }
          contained := false;
        }
        prevSpanLimit := spanLimit;
      }
    }

    /**
     Appends `second` to `first`, normalizing it or not, and merges them at the boundary. If
     `first` is normalized, and `second` is normalized or becomes so, then the result is the
     normalized whole.
     */
    method AppendSecond(first: Text, second: Text, doNormalize: bool) returns (r: Text)
      ensures norm2.Lawful() && EachRun(set_, first, 0, norm2.isNormalized) &&
              (doNormalize || EachRun(set_, second, 0, norm2.isNormalized)) ==>
                r == Normalized(first + second)
    {
      hide Filtered, EachRun, Merged, Span, SpanBack, Normalizer.Lawful;
      if first == [] {
        if doNormalize {
          r := Normalize(second);
        } else {
          r := second;
        }
        AppendToEmpty(second);
        return;
      }
      var prefixLimit := Span(second, 0, set_, true);
      r := MergeBoundary(first, second, prefixLimit, doNormalize);
      var merged := r;
      if prefixLimit < |second| {
        var rest := second[prefixLimit..];
        if doNormalize {
          r := NormalizeFrom(rest, r, false);
        } else {
          r := r + rest;
        }
      } else {
        assert second[prefixLimit..] == [];
        FilteredNothing();
        assert r == r + [];
      }
      if norm2.Lawful() && EachRun(set_, first, 0, norm2.isNormalized) {
        FilteredAppend(norm2, set_, first, second);
        if EachRun(set_, second, 0, norm2.isNormalized) {
          PrefixNormalized(norm2, set_, second);
        }
      }
    }

    lemma FilteredNothing()
      ensures Normalized([]) == []
    {
    }

    lemma AppendToEmpty(second: Text)
      ensures [] + second == second
      ensures norm2.Lawful() && EachRun(set_, second, 0, norm2.isNormalized) ==> Normalized(second) == second
    {
      if norm2.Lawful() && EachRun(set_, second, 0, norm2.isNormalized) {
        NormalizedIsKept(norm2, set_, second, 0);
      }
    }

    method MergeBoundary(first: Text, second: Text, prefixLimit: nat, doNormalize: bool) returns (r: Text)
      requires prefixLimit == Span(second, 0, set_, true)
      ensures norm2.Lawful() && EachRun(set_, first, 0, norm2.isNormalized) &&
              (doNormalize || EachRun(set_, second, 0, norm2.isNormalized)) ==>
                r == Merged(norm2, set_, first, second)
    {
      hide Filtered, EachRun, Span, SpanBack;
      r := first;
      if prefixLimit != 0 {
        var prefix := second[..prefixLimit];
        var suffixStart := SpanBack(first, |first|, set_, true);
        if norm2.Lawful() && EachRun(set_, first, 0, norm2.isNormalized) {
          SuffixNormalized(norm2, set_, first);
          if EachRun(set_, second, 0, norm2.isNormalized) {
            PrefixNormalized(norm2, set_, second);
          }
        }
        if suffixStart == 0 {
          assert first[0..] == first;
          r := if doNormalize then norm2.normalizeSecondAndAppend(first, prefix) else norm2.append(first, prefix);
          assert first[..0] + r == r;
        } else {
          var middle := first[suffixStart..];
          middle := if doNormalize then norm2.normalizeSecondAndAppend(middle, prefix)
            else norm2.append(middle, prefix);
          r := first[..suffixStart] + middle;
        }
      }
    }

    /** True only if each run is normalized, and then nothing changes. */
    method IsNormalized(s: Text) returns (r: bool)
      requires norm2.isNormalized([])
      ensures r == EachRun(set_, s, 0, norm2.isNormalized)
      ensures r && norm2.Lawful() ==> Normalized(s) == s
    {
      if norm2.Lawful() && EachRun(set_, s, 0, norm2.isNormalized) {
        NormalizedIsKept(norm2, set_, s, 0);
      }
      var contained := true;
      var prevSpanLimit := 0;
      while prevSpanLimit < |s|
        invariant prevSpanLimit <= |s|
        invariant EachRun(set_, s, prevSpanLimit, norm2.isNormalized) == EachRun(set_, s, 0, norm2.isNormalized)
        decreases |s| - prevSpanLimit, if prevSpanLimit < |s| && set_(s[prevSpanLimit]) == contained then 0 else 1
      {
        var spanLimit := Span(s, prevSpanLimit, set_, contained);
        if !contained {
          SpanIsKept(norm2, set_, s, prevSpanLimit, spanLimit, norm2.isNormalized);
          contained := true;
        } else {
          assert s[prevSpanLimit..prevSpanLimit] == [];
          if !norm2.isNormalized(s[prevSpanLimit..spanLimit]) {
            return false;
          }
          contained := false;
        }
        prevSpanLimit := spanLimit;
      }
      r := true;
    }

    /** No if the check fails for some run, maybe if it is undecided for some run, otherwise yes. */
    method QuickCheck(s: Text) returns (r: QuickCheckResult)
      requires norm2.quickCheck([]) == Yes
      ensures r == CheckRuns(s)
    {
      r := Yes;
      var contained := true;
      var prevSpanLimit := 0;
      while prevSpanLimit < |s|
        invariant prevSpanLimit <= |s|
        invariant EachRun(set_, s, 0, NotNo()) == EachRun(set_, s, prevSpanLimit, NotNo())
        invariant EachRun(set_, s, 0, IsYes()) == (r == Yes && EachRun(set_, s, prevSpanLimit, IsYes()))
        invariant r != No
        decreases |s| - prevSpanLimit, if prevSpanLimit < |s| && set_(s[prevSpanLimit]) == contained then 0 else 1
      {
        var spanLimit := Span(s, prevSpanLimit, set_, contained);
        if !contained {
          SpanIsKept(norm2, set_, s, prevSpanLimit, spanLimit, NotNo());
          SpanIsKept(norm2, set_, s, prevSpanLimit, spanLimit, IsYes());
          contained := true;
        } else {
          assert s[prevSpanLimit..prevSpanLimit] == [];
          var qcResult := norm2.quickCheck(s[prevSpanLimit..spanLimit]);
          if qcResult == No {
            return qcResult;
          } else if qcResult == Maybe {
            r := qcResult;
          }
          contained := false;
        }
        prevSpanLimit := spanLimit;
      }
    }

    ghost function IsYes(): Text -> bool {
      x => norm2.quickCheck(x) == Yes
    }

    ghost function NotNo(): Text -> bool {
      x => norm2.quickCheck(x) != No
    }

    ghost function CheckRuns(s: Text): QuickCheckResult {
      if !EachRun(set_, s, 0, NotNo()) then No else if EachRun(set_, s, 0, IsYes()) then Yes else Maybe
    }

    /** A text of one run is checked as such, a text without runs passes. */
    lemma CheckOfRun(s: Text, contained: bool)
      requires s != [] && forall k :: 0 <= k < |s| ==> set_(s[k]) == contained
      ensures CheckRuns(s) == if contained then norm2.quickCheck(s) else Yes
    {
      hide Filtered, EachRun;
      if contained {
        FilteredRun(norm2, set_, s, NotNo());
        FilteredRun(norm2, set_, s, IsYes());
      } else {
        SpanIsKept(norm2, set_, s, 0, |s|, NotNo());
        SpanIsKept(norm2, set_, s, 0, |s|, IsYes());
        AtEnd(norm2, set_, s, NotNo());
        AtEnd(norm2, set_, s, IsYes());
      }
    }

    /** Two texts that no run connects: the worse of both results. */
    lemma CheckOfBoth(a: Text, b: Text)
      requires Separate(set_, a, b)
      ensures CheckRuns(a + b) == No <==> CheckRuns(a) == No || CheckRuns(b) == No
      ensures CheckRuns(a + b) == Yes <==> CheckRuns(a) == Yes && CheckRuns(b) == Yes
    {
      hide Filtered, EachRun;
      FilteredConcat(norm2, set_, a, b, 0, NotNo());
      FilteredConcat(norm2, set_, a, b, 0, IsYes());
      YesIsNotNo(a);
      YesIsNotNo(b);
      YesIsNotNo(a + b);
    }

    lemma YesIsNotNo(s: Text)
      ensures EachRun(set_, s, 0, IsYes()) ==> EachRun(set_, s, 0, NotNo())
    {
      if EachRun(set_, s, 0, IsYes()) {
        RunsWeaken(set_, s, 0, IsYes(), NotNo());
      }
    }

    /** If the quick check of the normalizer is right, then so is this one: yes is for what is kept as it is. */
    lemma CheckDecides(s: Text)
      requires norm2.Lawful() && norm2.Decides()
      ensures CheckRuns(s) == Yes ==> EachRun(set_, s, 0, norm2.isNormalized) && Normalized(s) == s
      ensures CheckRuns(s) == No ==> !EachRun(set_, s, 0, norm2.isNormalized)
    {
      hide Filtered, EachRun, Normalizer.Lawful;
      YesIsNotNo(s);
      if EachRun(set_, s, 0, IsYes()) {
        RunsWeaken(set_, s, 0, IsYes(), norm2.isNormalized);
        NormalizedIsKept(norm2, set_, s, 0);
      }
      if EachRun(set_, s, 0, norm2.isNormalized) {
        RunsWeaken(set_, s, 0, norm2.isNormalized, NotNo());
      }
    }

    /** The end of what passes the quick check from `p` on: within the first run that does not pass as a whole. */
    ghost function YesEnd(s: Text, p: nat): nat
      requires p <= |s|
      decreases |s| - p
    {
      if p == |s| then p
      else if !set_(s[p]) then YesEnd(s, p + 1)
      else
        var q := Span(s, p, set_, true);
        var yes := norm2.spanQuickCheckYes(s[p..q]);
        if yes < q - p then p + yes else YesEnd(s, q)
    }

    /** The longest run from `p` to `q`. */
    ghost predicate RunAt(s: Text, p: nat, q: nat) {
      p < q <= |s| && (forall k :: p <= k < q ==> set_(s[k])) && (0 < p ==> !set_(s[p - 1])) &&
      (q < |s| ==> !set_(s[q]))
    }

    /** Short of the end of the text, it is the end of what passes in a run. */
    lemma {:induction false} YesEndIsInRun(s: Text, p: nat) returns (i: nat, j: nat)
      requires norm2.Lawful() && p <= |s| && (0 < p < |s| ==> !set_(s[p - 1]) || !set_(s[p]))
      ensures YesEnd(s, p) < |s| ==>
                p <= i && RunAt(s, i, j) && YesEnd(s, p) == i + norm2.spanQuickCheckYes(s[i..j]) < j
      ensures YesEnd(s, p) <= |s|
      decreases |s| - p
    {
      hide Normalizer.Lawful;
      i, j := 0, 0;
      if p < |s| {
        if !set_(s[p]) {
          i, j := YesEndIsInRun(s, p + 1);
        } else {
          var q := Span(s, p, set_, true);
          if norm2.spanQuickCheckYes(s[p..q]) < q - p {
            i, j := p, q;
          } else {
            i, j := YesEndIsInRun(s, q);
          }
        }
      }
    }

    lemma {:induction false} YesEndSkips(s: Text, p: nat, q: nat)
      requires p <= q <= |s| && forall k :: p <= k < q ==> !set_(s[k])
      ensures YesEnd(s, p) == YesEnd(s, q)
      decreases q - p
    {
      if p < q {
        YesEndSkips(s, p + 1, q);
      }
    }

    /**
     The end of what passes the quick check in the first run that does not pass as a whole; the
     whole text if there is none. All runs of the text up to there pass.
     */
    method SpanQuickCheckYes(s: Text) returns (r: nat)
      requires norm2.Lawful()
      ensures r == YesEnd(s, 0)
      ensures r <= |s| && EachRun(set_, s[..r], 0, IsYes()) && (r == |s| <==> EachRun(set_, s, 0, PassesWhole()))
      ensures r < |s| ==>
                exists p: nat, q: nat :: RunAt(s, p, q) && p <= r < q && r == p + norm2.spanQuickCheckYes(s[p..q])
    {
      hide Filtered, EachRun, Normalizer.Lawful, YesEnd;
      var contained := true;
      var prevSpanLimit := 0;
      NothingPasses(s);
      ghost var p, q := YesEndIsInRun(s, 0);
      while prevSpanLimit < |s|
        invariant prevSpanLimit <= |s| && EachRun(set_, s[..prevSpanLimit], 0, IsYes())
        invariant EachRun(set_, s, 0, PassesWhole()) == EachRun(set_, s, prevSpanLimit, PassesWhole())
        invariant YesEnd(s, 0) == YesEnd(s, prevSpanLimit)
        invariant 0 < prevSpanLimit < |s| ==>
                    set_(s[prevSpanLimit - 1]) != contained && set_(s[prevSpanLimit]) == contained
        decreases |s| - prevSpanLimit, if prevSpanLimit < |s| && set_(s[prevSpanLimit]) == contained then 0 else 1
      {
        var spanLimit := Span(s, prevSpanLimit, set_, contained);
        if !contained {
          SpanIsKept(norm2, set_, s, prevSpanLimit, spanLimit, PassesWhole());
          YesEndSkips(s, prevSpanLimit, spanLimit);
          PrefixPasses(s, prevSpanLimit, spanLimit, false);
          contained := true;
        } else {
          var yesLimit := prevSpanLimit + norm2.spanQuickCheckYes(s[prevSpanLimit..spanLimit]);
          SpanPasses(s, prevSpanLimit, spanLimit);
          PrefixPasses(s, prevSpanLimit, yesLimit, true);
          if prevSpanLimit < spanLimit {
            RunPasses(s, prevSpanLimit, spanLimit);
          }
          if yesLimit < spanLimit {
            return yesLimit;
          }
          contained := false;
        }
        prevSpanLimit := spanLimit;
      }
      assert s[..|s|] == s;
      r := |s|;
    }

    ghost function PassesWhole(): Text -> bool {
      x => norm2.spanQuickCheckYes(x) == |x|
    }

    lemma NothingPasses(s: Text)
      ensures EachRun(set_, s[..0], 0, IsYes()) && EachRun(set_, s, |s|, PassesWhole()) && YesEnd(s, |s|) == |s|
    {
    }

    /** The span that passes within a run. */
    lemma SpanPasses(s: Text, p: nat, q: nat)
      requires norm2.Lawful() && p <= q <= |s|
      ensures p + norm2.spanQuickCheckYes(s[p..q]) <= q &&
              norm2.quickCheck(s[p..p + norm2.spanQuickCheckYes(s[p..q])]) == Yes
    {
      var n := norm2.spanQuickCheckYes(s[p..q]);
      assert s[p..q][..n] == s[p..p + n];
    }

    /** What the run at `p` contributes. */
    lemma RunPasses(s: Text, p: nat, q: nat)
      requires p < q <= |s| && q == Span(s, p, set_, true)
      ensures EachRun(set_, s, p, PassesWhole()) ==
              (norm2.spanQuickCheckYes(s[p..q]) == q - p && EachRun(set_, s, q, PassesWhole()))
      ensures YesEnd(s, p) == var yes := norm2.spanQuickCheckYes(s[p..q]); if yes < q - p then p + yes else YesEnd(s, q)
    {
      assert PassesWhole()(s[p..q]) == (norm2.spanQuickCheckYes(s[p..q]) == q - p);
    }

    lemma PrefixPasses(s: Text, p: nat, q: nat, contained: bool)
      requires p <= q <= |s| && EachRun(set_, s[..p], 0, IsYes())
      requires (forall k :: p <= k < q ==> set_(s[k]) == contained) && (0 < p ==> set_(s[p - 1]) != contained)
      requires contained ==> norm2.quickCheck(s[p..q]) == Yes
      ensures EachRun(set_, s[..q], 0, IsYes())
    {
      var a, b := s[..p], s[p..q];
      assert s[..q] == a + b;
      FilteredConcat(norm2, set_, a, b, 0, IsYes());
      if contained && b != [] {
        FilteredRun(norm2, set_, b, IsYes());
      } else if !contained {
        SpanIsKept(norm2, set_, b, 0, |b|, IsYes());
      }
    }
  }
}
