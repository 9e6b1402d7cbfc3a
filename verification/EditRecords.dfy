/**
 The 16-bit encoding of an edit log, `icu/common/edits.cpp`. A log is a sequence of records:
 up to 0x1000 unchanged text units, up to 0x200 equal short replacements packed into one
 unit, or one long replacement with up to four trail units.
 */
module EditRecords {
  import opened Common
  import opened EditSpans

  const INT32_MAX := 0x7fff_ffff

  const MAX_UNCHANGED_LENGTH := 0x1000
  const MAX_UNCHANGED := MAX_UNCHANGED_LENGTH - 1
  const MAX_SHORT_CHANGE_OLD_LENGTH := 6
  const MAX_SHORT_CHANGE_NEW_LENGTH := 7
  const SHORT_CHANGE_NUM_MASK := 0x1ff
  const MAX_SHORT_CHANGE := 0x6fff
  const LENGTH_IN_1TRAIL := 61
  const LENGTH_IN_2TRAIL := 62

  datatype Record =
    | Unchanged(n: nat)
    | Short(oldLen: nat, newLen: nat, num: nat)
    | Long(oldLen: nat, newLen: nat)
  {
    ghost predicate Valid() {
      match this
      case Unchanged(n) => 1 <= n <= MAX_UNCHANGED_LENGTH
      case Short(m, n, num) =>
        1 <= m <= MAX_SHORT_CHANGE_OLD_LENGTH && n <= MAX_SHORT_CHANGE_NEW_LENGTH &&
        1 <= num <= SHORT_CHANGE_NUM_MASK + 1
      case Long(m, n) => m <= INT32_MAX && n <= INT32_MAX && 0 < m + n
    }

    /** All replacements of the record together. */
    ghost function Whole(): Span {
      match this
      case Unchanged(n) => Span(false, n, n)
      case Short(m, n, num) => Span(true, num * m, num * n)
      case Long(m, n) => Span(true, m, n)
    }
  }

  ghost predicate ValidRecords(records: seq<Record>) {
    forall k :: 0 <= k < |records| ==> records[k].Valid()
  }

  /** The six-bit length field of the head unit of a long record. */
  ghost function LengthField(length: nat): nat {
    if length < LENGTH_IN_1TRAIL then length
    else if length <= 0x7fff then LENGTH_IN_1TRAIL
    else LENGTH_IN_2TRAIL + length / 0x4000_0000
  }

  /** The trail units that carry a length too large for its field. */
  ghost function Trail(length: nat): (s: seq<Unit>) {
    if length < LENGTH_IN_1TRAIL then []
    else if length <= 0x7fff then [0x8000 + length]
    else [0x8000 + length / 0x8000 % 0x8000, 0x8000 + length % 0x8000]
  }

  ghost function EncodeRecord(r: Record): (s: seq<Unit>)
    requires r.Valid()
  {
    match r
    case Unchanged(n) => [n - 1]
    case Short(m, n, num) => [m * 0x1000 + n * 0x200 + (num - 1)]
    case Long(m, n) => [0x7000 + LengthField(m) * 0x40 + LengthField(n)] + Trail(m) + Trail(n)
  }

  /** The units of the first `e` records. */
  ghost function Encode(records: seq<Record>, e: nat): seq<Unit>
    requires ValidRecords(records) && e <= |records|
  {
    if e == 0 then [] else Encode(records, e - 1) + EncodeRecord(records[e - 1])
  }

  /** Unit index of the head of record `e`. */
  ghost function HeadIndex(records: seq<Record>, e: nat): nat
    requires ValidRecords(records) && e <= |records|
  {
    |Encode(records, e)|
  }

  lemma {:induction false} EncodeOfPrefix(r: seq<Record>, s: seq<Record>, e: nat)
    requires ValidRecords(r) && ValidRecords(s) && e <= |r| && e <= |s|
    requires forall d :: 0 <= d < e ==> r[d] == s[d]
    ensures Encode(r, e) == Encode(s, e)
  {
    if e > 0 {
      EncodeOfPrefix(r, s, e - 1);
    }
  }

  lemma UnchangedUnit(n: nat)
    requires Unchanged(n).Valid()
    ensures EncodeRecord(Unchanged(n)) == [n - 1]
  {
  }

  lemma EncodeSnoc(records: seq<Record>, r: Record)
    requires ValidRecords(records) && r.Valid()
    ensures ValidRecords(records + [r])
    ensures Encode(records + [r], |records| + 1) == Encode(records, |records|) + EncodeRecord(r)
  {
    hide EncodeRecord;
    EncodeOfPrefix(records + [r], records, |records|);
  }

  lemma {:induction false} EncodePrefix(records: seq<Record>, d: nat, e: nat)
    requires ValidRecords(records) && d <= e <= |records|
    ensures Encode(records, d) <= Encode(records, e)
    ensures HeadIndex(records, d) + (e - d) <= HeadIndex(records, e)
    decreases e
  {
    hide EncodeRecord;
    if d < e {
      EncodePrefix(records, d, e - 1);
      HeadUnit(records[e - 1]);
    }
  }

  /** The units of record `e` are found at its head index. */
  lemma RecordAt(records: seq<Record>, e: nat)
    requires ValidRecords(records) && e < |records|
    ensures HeadIndex(records, e + 1) ==
            HeadIndex(records, e) + |EncodeRecord(records[e])| <= |Encode(records, |records|)|
    ensures Encode(records, |records|)[HeadIndex(records, e)..HeadIndex(records, e + 1)] == EncodeRecord(records[e])
  {
    hide EncodeRecord;
    EncodePrefix(records, e + 1, |records|);
    var i, j := HeadIndex(records, e), HeadIndex(records, e + 1);
    assert Encode(records, |records|)[i..j] == Encode(records, e + 1)[i..j];
  }

  /** The first record begins at the first unit, and only the end of the log at the end. */
  lemma AtEnds(records: seq<Record>, e: nat)
    requires ValidRecords(records) && e <= |records|
    ensures HeadIndex(records, e) <= HeadIndex(records, |records|)
    ensures HeadIndex(records, e) == HeadIndex(records, |records|) <==> e == |records|
    ensures HeadIndex(records, e) == 0 <==> e == 0
  {
    EncodePrefix(records, e, |records|);
    EncodePrefix(records, 0, e);
  }

  lemma ShortFields(m: nat, n: nat, k: nat)
    requires m <= 6 && n <= 7 && k < 0x200
    ensures var u := m * 0x1000 + n * 0x200 + k;
            u / 0x1000 == m && u / 0x200 % 8 == n && u % 0x200 == k
  {
    assert (m * 0x1000 + n * 0x200 + k) / 0x200 == 8 * m + n;
  }

  lemma LongFields(m: nat, n: nat)
    requires m < 0x40 && n < 0x40
    ensures var u := 0x7000 + m * 0x40 + n;
            u / 0x40 % 0x40 == m && u % 0x40 == n
  {
    assert (0x7000 + m * 0x40 + n) / 0x40 == 0x1c0 + m;
  }

  /** The first unit of a record tells its kind and is never mistaken for a trail unit. */
  lemma HeadUnit(r: Record)
    requires r.Valid()
    ensures |EncodeRecord(r)| >= 1
    ensures HeadOf(EncodeRecord(r)[0], r)
    ensures forall k :: 1 <= k < |EncodeRecord(r)| ==> 0x7fff < EncodeRecord(r)[k]
    ensures !r.Long? ==> |EncodeRecord(r)| == 1
  {
    match r
    case Unchanged(n) =>
    case Short(m, n, num) => ShortFields(m, n, num - 1);
    case Long(m, n) => LongFields(LengthField(m), LengthField(n));
  }

  /** Reading a length field and its trail units: the length, and the unit index after it. */
  function ReadLength(units: seq<Unit>, index: nat, head: nat): (r: (nat, nat))
    requires CanRead(units, index, head)
    ensures r.0 <= INT32_MAX && index <= r.1
  {
    if head < LENGTH_IN_1TRAIL then (head, index)
    else if head < LENGTH_IN_2TRAIL then (units[index] % 0x8000, index + 1)
    else var hi: int, lo: int := units[index], units[index + 1];
      (head % 2 * 0x4000_0000 + hi % 0x8000 * 0x8000 + lo % 0x8000, index + 2)
  }

  /** Every length in 0..2^31-1 survives its encoding as a field and trail units. */
  lemma ReadLengthInvertsTrail(before: seq<Unit>, length: nat, after: seq<Unit>)
    requires length <= INT32_MAX
    ensures CanRead(before + Trail(length) + after, |before|, LengthField(length))
    ensures ReadLength(before + Trail(length) + after, |before|, LengthField(length)) ==
            (length, |before| + |Trail(length)|)
  {
    var s := before + Trail(length) + after;
    if 0x7fff < length {
      assert s[|before|] == Trail(length)[0] && s[|before| + 1] == Trail(length)[1];
      assert length / 0x8000 / 0x8000 == length / 0x4000_0000;
    } else if LENGTH_IN_1TRAIL <= length {
      assert s[|before|] == Trail(length)[0];
    }
  }

  /** Reading a length is possible: its trail units are there. */
  ghost predicate CanRead(units: seq<Unit>, index: nat, head: nat) {
    head < 0x40 &&
    (LENGTH_IN_1TRAIL <= head ==> index < |units| && 0x8000 <= units[index]) &&
    (LENGTH_IN_2TRAIL <= head ==> index + 1 < |units| && 0x8000 <= units[index + 1])
  }

  /** A unit at a head index tells what record begins there. */
  ghost predicate HeadOf(u: Unit, r: Record) {
    match r
    case Unchanged(n) => u == n - 1 <= MAX_UNCHANGED
    case Short(m, n, num) =>
      MAX_UNCHANGED < u <= MAX_SHORT_CHANGE && u / 0x1000 == m && u / 0x200 % 8 == n && u % 0x200 == num - 1
    case Long(m, n) =>
      MAX_SHORT_CHANGE < u <= 0x7fff && u / 0x40 % 0x40 == LengthField(m) && u % 0x40 == LengthField(n)
  }

  lemma UnitsOf(records: seq<Record>, e: nat)
    requires ValidRecords(records) && e < |records|
    ensures var i, j := HeadIndex(records, e), HeadIndex(records, e + 1);
            var units := Encode(records, |records|);
            i < j <= |units| && HeadOf(units[i], records[e]) &&
            (!records[e].Long? ==> j == i + 1) &&
            forall k :: i < k < j ==> 0x7fff < units[k]
  {
    hide EncodeRecord, Encode;
    RecordAt(records, e);
    HeadUnit(records[e]);
    var i, j := HeadIndex(records, e), HeadIndex(records, e + 1);
    var units := Encode(records, |records|);
    assert forall k :: i <= k < j ==> units[k] == units[i..j][k - i];
  }

  /** Reading both lengths behind a head unit ends at the next record. */
  ghost predicate LengthsRead(units: seq<Unit>, i: nat, m: nat, n: nat, j: nat) {
    CanRead(units, i + 1, LengthField(m)) &&
    ReadLength(units, i + 1, LengthField(m)).0 == m &&
    var mid := ReadLength(units, i + 1, LengthField(m)).1;
    CanRead(units, mid, LengthField(n)) &&
    ReadLength(units, mid, LengthField(n)) == (n, j)
  }

  lemma LengthsBehind(before: seq<Unit>, head: Unit, m: nat, n: nat, after: seq<Unit>)
    requires m <= INT32_MAX && n <= INT32_MAX
    ensures LengthsRead(before + ([head] + Trail(m) + Trail(n)) + after, |before|, m, n,
                        |before| + 1 + |Trail(m)| + |Trail(n)|)
  {
    hide Trail, CanRead, ReadLength;
    var units := before + ([head] + Trail(m) + Trail(n)) + after;
    assert units == (before + [head]) + Trail(m) + (Trail(n) + after);
    ReadLengthInvertsTrail(before + [head], m, Trail(n) + after);
    assert units == (before + [head] + Trail(m)) + Trail(n) + after;
    ReadLengthInvertsTrail(before + [head] + Trail(m), n, after);
  }

  lemma LengthsOf(records: seq<Record>, e: nat)
    requires ValidRecords(records) && e < |records| && records[e].Long?
    ensures LengthsRead(Encode(records, |records|), HeadIndex(records, e), records[e].oldLen, records[e].newLen,
                        HeadIndex(records, e + 1))
  {
    hide Encode, Trail, LengthsRead;
    var i, j := HeadIndex(records, e), HeadIndex(records, e + 1);
    var units := Encode(records, |records|);
    var Long(m, n) := records[e];
    var code := EncodeRecord(records[e]);
    RecordAt(records, e);
    assert units[..i] + code + units[j..] == units;
    LengthsBehind(units[..i], code[0], m, n, units[j..]);
  }

  /** A long record without trail units carries both lengths in its head. */
  lemma LengthsAlone(records: seq<Record>, e: nat)
    requires ValidRecords(records) && e < |records| && records[e].Long?
    requires HeadIndex(records, e + 1) == HeadIndex(records, e) + 1
    ensures LengthField(records[e].oldLen) == records[e].oldLen < LENGTH_IN_1TRAIL
    ensures LengthField(records[e].newLen) == records[e].newLen < LENGTH_IN_1TRAIL
  {
    hide Encode;
    RecordAt(records, e);
  }

  // ----- from records to spans

  /** Appends a span, merging adjacent unchanged text and, if coarse, adjacent changes. */
  ghost function Push(spans: seq<Span>, x: Span, coarse: bool): seq<Span> {
    var n := |spans| - 1;
    if 0 <= n && spans[n].changed == x.changed && (coarse || !x.changed) then
      spans[..n] + [Span(x.changed, spans[n].oldLen + x.oldLen, spans[n].newLen + x.newLen)]
    else
      spans + [x]
  }

  /** Appends `num` equal replacements, one by one. */
  ghost function PushTimes(spans: seq<Span>, x: Span, num: nat): seq<Span> {
    if num == 0 then spans else PushTimes(spans, x, num - 1) + [x]
  }

  lemma {:induction false} PushTimesElements(spans: seq<Span>, x: Span, num: nat)
    ensures var r := PushTimes(spans, x, num);
            |r| == |spans| + num && r[..|spans|] == spans && forall k :: |spans| <= k < |r| ==> r[k] == x
  {
    if num > 0 {
      PushTimesElements(spans, x, num - 1);
    }
  }

  ghost function PushRecord(spans: seq<Span>, r: Record, coarse: bool): seq<Span> {
    if r.Short? && !coarse then PushTimes(spans, Span(true, r.oldLen, r.newLen), r.num)
    else Push(spans, r.Whole(), coarse)
  }

  /** The spans of the first `e` records, one by one (fine) or with adjacent changes merged (coarse). */
  ghost function SpansTo(records: seq<Record>, coarse: bool, e: nat): seq<Span>
    requires e <= |records|
  {
    if e == 0 then [] else PushRecord(SpansTo(records, coarse, e - 1), records[e - 1], coarse)
  }

  /** All spans recorded in a log. */
  ghost function Spans(records: seq<Record>, coarse: bool): seq<Span> {
    SpansTo(records, coarse, |records|)
  }

  lemma {:induction false} SpansOfPrefix(r: seq<Record>, s: seq<Record>, coarse: bool, e: nat)
    requires e <= |r| && e <= |s|
    requires forall d :: 0 <= d < e ==> r[d] == s[d]
    ensures SpansTo(r, coarse, e) == SpansTo(s, coarse, e)
  {
    if e > 0 {
      SpansOfPrefix(r, s, coarse, e - 1);
    }
  }

  lemma SpansSnoc(records: seq<Record>, r: Record, coarse: bool)
    ensures Spans(records + [r], coarse) == PushRecord(Spans(records, coarse), r, coarse)
  {
    hide PushRecord;
    SpansOfPrefix(records + [r], records, coarse, |records|);
  }

  /** Unchanged text appended to a log, extending unchanged text at its end. */
  ghost function PushUnchanged(spans: seq<Span>, n: nat): seq<Span> {
    if n == 0 then spans else Push(spans, Span(false, n, n), false)
  }

  lemma PushUnchangedTwice(spans: seq<Span>, m: nat, n: nat)
    ensures PushUnchanged(PushUnchanged(spans, m), n) == PushUnchanged(spans, m + n)
  {
    hide Push;
    if m > 0 && n > 0 {
      PushTwice(spans, Span(false, m, m), Span(false, n, n), false);
    }
  }

  /** Merges the adjacent changes among the first `k` spans. */
  ghost function Coarsen(spans: seq<Span>, k: nat): seq<Span>
    requires k <= |spans|
  {
    if k == 0 then [] else Push(Coarsen(spans, k - 1), spans[k - 1], true)
  }

  /** Pushing onto a list whose last span is of the kind that is merged. */
  lemma PushMerges(before: seq<Span>, last: Span, x: Span, coarse: bool)
    requires last.changed == x.changed && (coarse || !x.changed)
    ensures Push(before + [last], x, coarse) ==
            before + [Span(x.changed, last.oldLen + x.oldLen, last.newLen + x.newLen)]
  {
    assert (before + [last])[..|before|] == before;
  }

  lemma PushTwice(spans: seq<Span>, x: Span, y: Span, coarse: bool)
    requires x.changed == y.changed && (coarse || !x.changed)
    ensures Push(Push(spans, x, coarse), y, coarse) ==
            Push(spans, Span(x.changed, x.oldLen + y.oldLen, x.newLen + y.newLen), coarse)
  {
    var n := |spans| - 1;
    var both := Span(x.changed, x.oldLen + y.oldLen, x.newLen + y.newLen);
    if 0 <= n && spans[n].changed == x.changed {
      var before, last := spans[..n], spans[n];
      assert spans == before + [last];
      hide Push;
      PushMerges(before, last, x, coarse);
      PushMerges(before, Span(x.changed, last.oldLen + x.oldLen, last.newLen + x.newLen), y, coarse);
      PushMerges(before, last, both, coarse);
    } else {
      assert Push(spans, x, coarse) == spans + [x] && Push(spans, both, coarse) == spans + [both];
      hide Push;
      PushMerges(spans, x, y, coarse);
    }
  }

  /** Extending the last record extends the unchanged text at the end. */
  lemma ExtendUnchangedSpans(records: seq<Record>, k: nat, n: nat)
    requires records != [] && records[|records| - 1] == Unchanged(k) && 1 <= k
    ensures Spans(records[..|records| - 1] + [Unchanged(k + n)], false) == PushUnchanged(Spans(records, false), n)
  {
    hide Spans;
    var before := records[..|records| - 1];
    assert records == before + [Unchanged(k)];
    SpansSnoc(before, Unchanged(k), false);
    SpansSnoc(before, Unchanged(k + n), false);
    hide Push;
    PushUnchangedTwice(Spans(before, false), k, n);
  }

  /** Adding one more to the replacements packed into the last record. */
  lemma ExtendShortSpans(records: seq<Record>, m: nat, n: nat, num: nat)
    requires records != [] && records[|records| - 1] == Short(m, n, num)
    ensures Spans(records[..|records| - 1] + [Short(m, n, num + 1)], false) ==
            Spans(records, false) + [Span(true, m, n)]
  {
    hide Spans;
    var before := records[..|records| - 1];
    assert records == before + [Short(m, n, num)];
    SpansSnoc(before, Short(m, n, num), false);
    SpansSnoc(before, Short(m, n, num + 1), false);
  }

  /** A new record of one replacement adds one change. */
  lemma AppendChangeSpans(records: seq<Record>, r: Record)
    requires r.Long? || (r.Short? && r.num == 1)
    ensures Spans(records + [r], false) == Spans(records, false) + [Span(true, r.oldLen, r.newLen)]
  {
    hide Spans;
    SpansSnoc(records, r, false);
    if r.Short? {
      assert PushTimes(Spans(records, false), Span(true, r.oldLen, r.newLen), 0) == Spans(records, false);
    }
  }

  lemma PushUnchangedSums(spans: seq<Span>, n: nat)
    ensures Total(PushUnchanged(spans, n), true) == Total(spans, true) + n
    ensures Total(PushUnchanged(spans, n), false) == Total(spans, false) + n
  {
    if n > 0 {
      hide Push;
      PushSums(spans, Span(false, n, n), false);
    }
  }

  /** Recording unchanged text changes no count of changes. */
  lemma PushUnchangedChanges(spans: seq<Span>, n: nat)
    ensures |Changes(PushUnchanged(spans, n))| == |Changes(spans)|
  {
    var r := PushUnchanged(spans, n);
    if n > 0 && |r| > |spans| {
      ChangesAppend(spans, Span(false, n, n));
    } else {
      assert forall k :: 0 <= k < |spans| ==> r[k].changed == spans[k].changed;
      assert Changes(r) == Changes(spans);
    }
  }

  lemma PushSums(spans: seq<Span>, x: Span, coarse: bool)
    ensures var r := Push(spans, x, coarse);
            SumOld(r, |r|) == SumOld(spans, |spans|) + x.oldLen &&
            SumNew(r, |r|) == SumNew(spans, |spans|) + x.newLen &&
            SumRepl(r, |r|) == SumRepl(spans, |spans|) + (if x.changed then x.newLen else 0)
  {
    var r := Push(spans, x, coarse);
    SumsOfPrefix(r, spans, |r| - 1);
  }

  /** `num` equal replacements added up. */
  ghost function Added(num: nat, x: Span): Span {
    if num == 0 then Span(true, 0, 0)
    else Span(true, Added(num - 1, x).oldLen + x.oldLen, Added(num - 1, x).newLen + x.newLen)
  }

  lemma {:induction false} AddedIsProduct(num: nat, x: Span)
    ensures Added(num, x) == Span(true, num * x.oldLen, num * x.newLen)
  {
    if num > 0 {
      AddedIsProduct(num - 1, x);
      assert num * x.oldLen == (num - 1) * x.oldLen + x.oldLen;
      assert num * x.newLen == (num - 1) * x.newLen + x.newLen;
    }
  }

  lemma {:induction false} PushTimesSums(spans: seq<Span>, x: Span, num: nat)
    requires x.changed
    ensures var r := PushTimes(spans, x, num);
            SumOld(r, |r|) == SumOld(spans, |spans|) + Added(num, x).oldLen &&
            SumNew(r, |r|) == SumNew(spans, |spans|) + Added(num, x).newLen &&
            SumRepl(r, |r|) == SumRepl(spans, |spans|) + Added(num, x).newLen
  {
    if num > 0 {
      var s := PushTimes(spans, x, num - 1);
      PushTimesSums(spans, x, num - 1);
      SumsOfPrefix(s + [x], s, |s|);
    }
  }

  /** A record adds its lengths to the text positions, whatever it is merged with. */
  lemma PushRecordSums(spans: seq<Span>, r: Record, coarse: bool)
    ensures var s := PushRecord(spans, r, coarse);
            SumOld(s, |s|) == SumOld(spans, |spans|) + r.Whole().oldLen &&
            SumNew(s, |s|) == SumNew(spans, |spans|) + r.Whole().newLen &&
            SumRepl(s, |s|) == SumRepl(spans, |spans|) + (if r.Unchanged? then 0 else r.Whole().newLen)
  {
    if r.Short? && !coarse {
      PushTimesSums(spans, Span(true, r.oldLen, r.newLen), r.num);
      AddedIsProduct(r.num, Span(true, r.oldLen, r.newLen));
    } else {
      PushSums(spans, r.Whole(), coarse);
    }
  }

  lemma PushTimesProper(spans: seq<Span>, x: Span, num: nat)
    requires Proper(spans) && ProperSpan(x)
    ensures Proper(PushTimes(spans, x, num))
  {
    hide PushTimes;
    PushTimesElements(spans, x, num);
    var s := PushTimes(spans, x, num);
    assert forall k :: 0 <= k < |spans| ==> s[k] == s[..|spans|][k];
  }

  lemma PushProper(spans: seq<Span>, x: Span, coarse: bool)
    requires Proper(spans) && ProperSpan(x)
    ensures Proper(Push(spans, x, coarse))
  {
    if spans != [] {
      assert ProperSpan(spans[|spans| - 1]);
    }
  }

  lemma WholeProper(r: Record)
    requires r.Valid()
    ensures ProperSpan(r.Whole())
  {
    if r.Short? {
      assert r.num * r.oldLen >= r.num;
    }
  }

  lemma PushRecordProper(spans: seq<Span>, r: Record, coarse: bool)
    requires Proper(spans) && r.Valid()
    ensures Proper(PushRecord(spans, r, coarse))
  {
    hide Push, PushTimes, Proper;
    WholeProper(r);
    if r.Short? && !coarse {
      PushTimesProper(spans, Span(true, r.oldLen, r.newLen), r.num);
    } else {
      PushProper(spans, r.Whole(), coarse);
    }
  }

  lemma {:induction false} SpansProper(records: seq<Record>, coarse: bool, e: nat)
    requires ValidRecords(records) && e <= |records|
    ensures Proper(SpansTo(records, coarse, e))
  {
    if e > 0 {
      SpansProper(records, coarse, e - 1);
      PushRecordProper(SpansTo(records, coarse, e - 1), records[e - 1], coarse);
    }
  }

  lemma {:induction false} CoarsenOfPrefix(s: seq<Span>, t: seq<Span>, k: nat)
    requires k <= |s| && k <= |t|
    requires forall j :: 0 <= j < k ==> s[j] == t[j]
    ensures Coarsen(s, k) == Coarsen(t, k)
  {
    if k > 0 {
      CoarsenOfPrefix(s, t, k - 1);
    }
  }

  lemma CoarsenSnoc(spans: seq<Span>, x: Span)
    ensures Coarsen(spans + [x], |spans| + 1) == Push(Coarsen(spans, |spans|), x, true)
  {
    hide Push;
    CoarsenOfPrefix(spans + [x], spans, |spans|);
  }

  lemma CoarsenPush(spans: seq<Span>, x: Span)
    ensures var r := Push(spans, x, false);
            Coarsen(r, |r|) == Push(Coarsen(spans, |spans|), x, true)
  {
    hide Coarsen;
    var n := |spans| - 1;
    if Push(spans, x, false) == spans + [x] {
      CoarsenSnoc(spans, x);
    } else {
      var before, last := spans[..n], spans[n];
      var y := Span(x.changed, last.oldLen + x.oldLen, last.newLen + x.newLen);
      assert spans == before + [last] && last.changed == x.changed && !x.changed;
      hide Push;
      PushMerges(before, last, x, false);
      CoarsenSnoc(before, last);
      CoarsenSnoc(before, y);
      PushTwice(Coarsen(before, n), last, x, true);
    }
  }

  lemma {:induction false} CoarsenTimes(spans: seq<Span>, x: Span, num: nat)
    requires 1 <= num && x.changed
    ensures var r := PushTimes(spans, x, num);
            Coarsen(r, |r|) == Push(Coarsen(spans, |spans|), Added(num, x), true)
    decreases num
  {
    hide Push, Coarsen;
    CoarsenSnoc(PushTimes(spans, x, num - 1), x);
    if num > 1 {
      CoarsenTimes(spans, x, num - 1);
      PushTwice(Coarsen(spans, |spans|), Added(num - 1, x), x, true);
    }
  }

  lemma CoarsenRecord(spans: seq<Span>, r: Record)
    requires r.Valid()
    ensures var fine := PushRecord(spans, r, false);
            Coarsen(fine, |fine|) == PushRecord(Coarsen(spans, |spans|), r, true)
  {
    hide Coarsen, Push, PushTimes;
    if r.Short? {
      CoarsenTimes(spans, Span(true, r.oldLen, r.newLen), r.num);
      AddedIsProduct(r.num, Span(true, r.oldLen, r.newLen));
    } else {
      CoarsenPush(spans, r.Whole());
    }
  }

  /** The coarse view of a log is its fine view with adjacent changes merged. */
  lemma {:induction false} CoarseMergesFine(records: seq<Record>, e: nat)
    requires ValidRecords(records) && e <= |records|
    ensures var fine := SpansTo(records, false, e);
            SpansTo(records, true, e) == Coarsen(fine, |fine|)
  {
    hide PushRecord;
    if e > 0 {
      CoarseMergesFine(records, e - 1);
      CoarsenRecord(SpansTo(records, false, e - 1), records[e - 1]);
    }
  }

  // ----- span boundaries between records

  /** Records `d - 1` and `d` contribute to the same span. */
  ghost predicate Joined(records: seq<Record>, coarse: bool, d: nat)
    requires 0 < d < |records|
  {
    records[d - 1].Unchanged? == records[d].Unchanged? && (coarse || records[d].Unchanged?)
  }

  /** A span boundary lies before record `e`. */
  ghost predicate Clean(records: seq<Record>, coarse: bool, e: nat) {
    e <= |records| && (e == 0 || e == |records| || !Joined(records, coarse, e))
  }

  /** How many spans the first `e` records make. */
  ghost function Count(records: seq<Record>, coarse: bool, e: nat): nat
    requires e <= |records|
  {
    |SpansTo(records, coarse, e)|
  }

  /** The last span of a record is of the kind of the record. */
  lemma LastSpan(spans: seq<Span>, r: Record, coarse: bool)
    requires r.Valid()
    ensures var s := PushRecord(spans, r, coarse);
            s != [] && s[|s| - 1].changed == !r.Unchanged?
  {
    if r.Short? && !coarse {
      PushTimesElements(spans, Span(true, r.oldLen, r.newLen), r.num);
    }
  }

  /** Another record leaves the spans before the last boundary alone. */
  lemma PushRecordKeeps(spans: seq<Span>, r: Record, coarse: bool, q: nat)
    requires r.Valid() && q <= |spans|
    requires q == |spans| > 0 ==> !(spans[q - 1].changed == !r.Unchanged? && (coarse || r.Unchanged?))
    ensures q < |PushRecord(spans, r, coarse)|
    ensures PushRecord(spans, r, coarse)[..q] == spans[..q]
  {
    if r.Short? && !coarse {
      PushTimesElements(spans, Span(true, r.oldLen, r.newLen), r.num);
      assert PushRecord(spans, r, coarse)[..q] == PushRecord(spans, r, coarse)[..|spans|][..q];
    }
  }

  /** The spans before a boundary are never touched by the records after it. */
  lemma {:induction false} SpansBefore(records: seq<Record>, coarse: bool, e: nat, m: nat)
    requires ValidRecords(records) && e <= m <= |records| && Clean(records, coarse, e)
    ensures Count(records, coarse, e) <= Count(records, coarse, m)
    ensures e < m ==> Count(records, coarse, e) < Count(records, coarse, m)
    ensures SpansTo(records, coarse, m)[..Count(records, coarse, e)] == SpansTo(records, coarse, e)
    decreases m
  {
    if e < m {
      SpansBefore(records, coarse, e, m - 1);
      if 0 < e == m - 1 {
        LastSpan(SpansTo(records, coarse, e - 1), records[e - 1], coarse);
      }
      PushRecordKeeps(SpansTo(records, coarse, m - 1), records[m - 1], coarse, Count(records, coarse, e));
    }
  }

  /** The three text positions after the first `e` records. */
  ghost function Before(records: seq<Record>, e: nat): (nat, nat, nat)
    requires e <= |records|
  {
    if e == 0 then (0, 0, 0)
    else
      var (o, n, r) := Before(records, e - 1);
      var x := records[e - 1].Whole();
      (o + x.oldLen, n + x.newLen, r + (if x.changed then x.newLen else 0))
  }

  lemma {:induction false} SumsBefore(records: seq<Record>, coarse: bool, e: nat)
    requires e <= |records|
    ensures Sums(SpansTo(records, coarse, e), Count(records, coarse, e)) == Before(records, e)
  {
    if e > 0 {
      SumsBefore(records, coarse, e - 1);
      PushRecordSums(SpansTo(records, coarse, e - 1), records[e - 1], coarse);
    }
  }

  /** The text positions at a boundary are those of the records before it. */
  lemma SumsAtBoundary(records: seq<Record>, coarse: bool, e: nat)
    requires ValidRecords(records) && Clean(records, coarse, e)
    ensures Count(records, coarse, e) <= |Spans(records, coarse)|
    ensures e < |records| ==> Count(records, coarse, e) < |Spans(records, coarse)|
    ensures e == |records| ==> Count(records, coarse, e) == |Spans(records, coarse)|
    ensures e == 0 ==> Count(records, coarse, e) == 0
    ensures Spans(records, coarse)[..Count(records, coarse, e)] == SpansTo(records, coarse, e)
    ensures Sums(Spans(records, coarse), Count(records, coarse, e)) == Before(records, e)
  {
    SpansBefore(records, coarse, e, |records|);
    SumsBefore(records, coarse, e);
    var s, t := Spans(records, coarse), SpansTo(records, coarse, e);
    assert forall k :: 0 <= k < |t| ==> s[k] == s[..|t|][k];
    SumsOfPrefix(s, t, |t|);
  }

  lemma {:induction false} BeforeMonotone(records: seq<Record>, d: nat, e: nat)
    requires d <= e <= |records|
    ensures Before(records, d).0 <= Before(records, e).0
    ensures Before(records, d).1 <= Before(records, e).1
    decreases e
  {
    if d < e {
      BeforeMonotone(records, d, e - 1);
    }
  }

  /** In the fine view the replacements packed into one unit are equal spans of their own. */
  lemma ShortBlock(records: seq<Record>, e: nat)
    requires ValidRecords(records) && e < |records| && records[e].Short?
    ensures Clean(records, false, e) && Clean(records, false, e + 1)
    ensures Count(records, false, e + 1) == Count(records, false, e) + records[e].num <= |Spans(records, false)|
    ensures forall k :: Count(records, false, e) <= k < Count(records, false, e + 1) ==>
              Spans(records, false)[k] == Span(true, records[e].oldLen, records[e].newLen)
  {
    hide PushTimes;
    PushTimesElements(SpansTo(records, false, e), Span(true, records[e].oldLen, records[e].newLen), records[e].num);
    SpansBefore(records, false, e + 1, |records|);
    var s, t := Spans(records, false), SpansTo(records, false, e + 1);
    assert forall k :: 0 <= k < |t| ==> s[k] == s[..|t|][k];
  }

  /** The three text positions moved over `n` changes equal to `x`. */
  ghost function Moved(sums: (nat, nat, nat), n: nat, x: Span): (r: (nat, nat, nat))
    ensures r == (sums.0 + n * x.oldLen, sums.1 + n * x.newLen, sums.2 + n * x.newLen)
  {
    if n == 0 then sums
    else
      var (o, w, r) := Moved(sums, n - 1, x);
      assert n * x.oldLen == (n - 1) * x.oldLen + x.oldLen;
      assert n * x.newLen == (n - 1) * x.newLen + x.newLen;
      (o + x.oldLen, w + x.newLen, r + x.newLen)
  }

  /** Stepping over `n` equal changes. */
  lemma {:induction false} EqualSteps(spans: seq<Span>, p: nat, n: nat, x: Span)
    requires p + n <= |spans| && x.changed
    requires forall k :: p <= k < p + n ==> spans[k] == x
    ensures Sums(spans, p + n) == Moved(Sums(spans, p), n, x)
    decreases n
  {
    if n > 0 {
      hide SumOld, SumNew, SumRepl, Moved;
      EqualSteps(spans, p, n - 1, x);
      assert spans[p + n - 1] == x;
      NextSums(spans, p + n - 1);
      OneMoreTime(n, x.oldLen);
      OneMoreTime(n, x.newLen);
    }
  }

  /** The same, seen from the end of the equal changes. */
  lemma EqualStepsBack(spans: seq<Span>, p: nat, n: nat, x: Span)
    requires n <= p <= |spans| && x.changed && forall k :: p - n <= k < p ==> spans[k] == x
    ensures var (o, w, r) := Sums(spans, p);
            n * x.oldLen <= o && n * x.newLen <= w && n * x.newLen <= r &&
            Sums(spans, p - n) == (o - n * x.oldLen, w - n * x.newLen, r - n * x.newLen)
  {
    hide Sums, Moved;
    EqualSteps(spans, p - n, n, x);
  }

  lemma OneMoreTime(n: nat, length: nat)
    requires 0 < n
    ensures n * length == (n - 1) * length + length
  {
  }

  lemma NextSums(spans: seq<Span>, k: nat)
    requires k < |spans|
    ensures SumOld(spans, k + 1) == SumOld(spans, k) + spans[k].oldLen
    ensures SumNew(spans, k + 1) == SumNew(spans, k) + spans[k].newLen
    ensures SumRepl(spans, k + 1) == SumRepl(spans, k) + if spans[k].changed then spans[k].newLen else 0
  {
  }

  /** Records `d` to `e - 1` all contribute to one span. */
  ghost predicate Run(records: seq<Record>, coarse: bool, d: nat, e: nat) {
    d < e <= |records| &&
    (forall m :: d < m < e ==> Joined(records, coarse, m)) &&
    (coarse || !records[d].Short? || records[d].num == 1)
  }

  /** Records `d` to `e - 1` as one span. */
  ghost function Joint(records: seq<Record>, d: nat, e: nat): Span
    requires d < e <= |records|
  {
    BeforeMonotone(records, d, e);
    Span(!records[d].Unchanged?, Before(records, e).0 - Before(records, d).0,
         Before(records, e).1 - Before(records, d).1)
  }

  /** Records `d` to `e - 1` are all unchanged text. */
  ghost predicate AllUnchanged(records: seq<Record>, d: nat, e: nat) {
    d < e <= |records| && forall m :: d <= m < e ==> records[m].Unchanged?
  }

  /** Adjacent unchanged records make one span, which has one length. */
  lemma {:induction false} UnchangedRun(records: seq<Record>, coarse: bool, d: nat, e: nat)
    requires AllUnchanged(records, d, e)
    ensures Run(records, coarse, d, e)
    ensures Joint(records, d, e) == Span(false, Joint(records, d, e).oldLen, Joint(records, d, e).oldLen)
    ensures e == d + 1 ==> Joint(records, d, e).oldLen == records[d].n
    decreases e
  {
    if d + 1 < e {
      UnchangedRun(records, coarse, d, e - 1);
      assert records[e - 1].Unchanged?;
    }
  }

  /** One more unchanged record on either side makes the span longer. */
  lemma UnchangedGrows(records: seq<Record>, d: nat, e: nat)
    requires AllUnchanged(records, d, e)
    ensures e < |records| && records[e].Unchanged? ==>
              AllUnchanged(records, d, e + 1) &&
              Joint(records, d, e + 1).oldLen == Joint(records, d, e).oldLen + records[e].n
    ensures 0 < d && records[d - 1].Unchanged? ==>
              AllUnchanged(records, d - 1, e) &&
              Joint(records, d - 1, e).oldLen == Joint(records, d, e).oldLen + records[d - 1].n
  {
  }

  lemma PushRecordApart(spans: seq<Span>, r: Record, coarse: bool)
    requires coarse || !r.Short? || r.num == 1
    requires spans != [] ==> !(spans[|spans| - 1].changed == !r.Unchanged? && (coarse || r.Unchanged?))
    ensures PushRecord(spans, r, coarse) == spans + [r.Whole()]
  {
    if r.Short? && !coarse {
      assert PushTimes(spans, Span(true, r.oldLen, r.newLen), 0) == spans;
    }
  }

  lemma PushRecordJoined(spans: seq<Span>, joint: Span, r: Record, coarse: bool)
    requires joint.changed == !r.Unchanged? && (coarse || r.Unchanged?)
    ensures PushRecord(spans + [joint], r, coarse) ==
            spans + [Span(joint.changed, joint.oldLen + r.Whole().oldLen, joint.newLen + r.Whole().newLen)]
  {
    assert (spans + [joint])[..|spans|] == spans;
  }

  /** A run of records that starts at a boundary makes exactly one more span. */
  lemma {:induction false} RunSpan(records: seq<Record>, coarse: bool, d: nat, e: nat)
    requires ValidRecords(records) && Clean(records, coarse, d) && Run(records, coarse, d, e)
    ensures SpansTo(records, coarse, e) == SpansTo(records, coarse, d) + [Joint(records, d, e)]
    ensures records[e - 1].Unchanged? == records[d].Unchanged?
    decreases e
  {
    hide PushRecord;
    var before := SpansTo(records, coarse, d);
    if e == d + 1 {
      if d > 0 {
        LastSpan(SpansTo(records, coarse, d - 1), records[d - 1], coarse);
      }
      PushRecordApart(before, records[d], coarse);
    } else {
      RunSpan(records, coarse, d, e - 1);
      assert Joined(records, coarse, e - 1);
      PushRecordJoined(before, Joint(records, d, e - 1), records[e - 1], coarse);
    }
  }
}
