/**
 The syntax of an Accept-Language string: sections 14.4 and 3.9 of RFC 2616, with spaces
 between all parts, empty fields, and any number of fraction digits.
 */
module AcceptLanguage {
  import opened Common

  const WEIGHT_ONE := 1000

  datatype Mention = Mention(locale: string, weight: nat)

  // ----- weights

  predicate Digit(c: char) {
    '0' <= c <= '9'
  }

  function DigitValue(c: char): (d: nat)
    requires Digit(c)
    ensures d <= 9
  {
    c as int - '0' as int
  }

  ghost function Power(n: nat): (m: nat)
    ensures 0 < m
  {
    if n == 0 then 1 else 10 * Power(n - 1)
  }

  /** The digits `from`..`to` - 1, appended to the number `lead`. */
  ghost function Number(s: string, lead: nat, from: nat, to: nat): nat
    requires from <= to <= |s| && forall k :: from <= k < to ==> Digit(s[k])
  {
    if from == to then lead else 10 * Number(s, lead, from, to - 1) + DigitValue(s[to - 1])
  }

  /** `w` is q * 1000 rounded to an integer, floor(1000 q + 1/2), where q == `number` / `scale`. */
  ghost predicate Rounded(w: nat, number: nat, scale: nat) {
    2 * (scale * w) <= 2000 * number + scale < 2 * (scale * w) + 2 * scale
  }

  /** No other integer is as close. */
  lemma RoundedOnce(v: nat, w: nat, number: nat, scale: nat)
    requires Rounded(v, number, scale) && Rounded(w, number, scale)
    ensures v == w
  {
    if v < w {
      Below(v, w, scale);
    } else if w < v {
      Below(w, v, scale);
    }
  }

  lemma Below(v: nat, w: nat, scale: nat)
    requires v < w
    ensures scale * v + scale <= scale * w
  {
    assert scale * v + scale == scale * (v + 1);
    assert scale * w == scale * (v + 1) + scale * (w - v - 1);
  }

  /** A qvalue: 0 or 1, with a fraction of any length; its weight is `w`. */
  ghost predicate IsWeight(s: string, from: nat, to: nat, w: nat) {
    from < to <= |s| && (s[from] == '0' || s[from] == '1') && w <= WEIGHT_ONE &&
    if to == from + 1 then w == DigitValue(s[from]) * WEIGHT_ONE
    else
      s[from + 1] == '.' && (forall k :: from + 2 <= k < to ==> Digit(s[k])) &&
      Rounded(w, Number(s, DigitValue(s[from]), from + 2, to), Power(to - (from + 2)))
  }

  /** From the fourth fraction digit on, further digits do not change the rounded weight. */
  lemma FurtherDigit(w: nat, number: nat, scale: nat, d: nat)
    requires Rounded(w, number, scale) && scale % 2000 == 0 && d <= 9
    ensures Rounded(w, 10 * number + d, 10 * scale)
  {
    var k := scale / 2000;
    assert scale == 2000 * k;
    Times(k, w);
    assert scale * w == 2000 * (k * w);
    Multiples(scale * w, k * w, number, k, d);
    assert 10 * scale * w == 10 * (scale * w);
  }

  lemma Times(k: nat, w: nat)
    ensures 2000 * k * w == 2000 * (k * w)
  {
  }

  lemma Multiples(x: nat, y: nat, number: nat, k: nat, d: nat)
    requires x == 2000 * y && 2 * x <= 2000 * number + 2000 * k < 2 * x + 4000 * k && d <= 9
    ensures 20 * x <= 2000 * (10 * number + d) + 20000 * k < 20 * x + 40000 * k
  {
    assert 2000 * (number + k) < 2000 * (2 * y + 2 * k);
    assert number + k + 1 <= 2 * y + 2 * k;
    assert 20000 * (number + k + 1) <= 20000 * (2 * y + 2 * k);
  }

  lemma {:induction false} PowerMultiple(n: nat)
    requires 4 <= n
    ensures Power(n) % 2000 == 0
  {
    if n == 4 {
      assert Power(4) == 10 * Power(3) == 100 * Power(2) == 1000 * Power(1) == 10000 * Power(0);
    } else {
      PowerMultiple(n - 1);
    }
  }

  lemma SmallPowers()
    ensures Power(0) == 1 && Power(1) == 10 && Power(2) == 100 && Power(3) == 1000 && Power(4) == 10000
  {
  }

  // ----- fields

  ghost predicate Spaces(s: string, from: nat, to: nat) {
    from <= to <= |s| && forall k :: from <= k < to ==> s[k] == ' '
  }

  predicate Delimiter(c: char) {
    c == ' ' || c == ',' || c == ';'
  }

  /** The end of the field that `p` is in. */
  function FieldEnd(s: string, p: nat): (e: nat)
    requires p <= |s|
    ensures p <= e <= |s| && (e < |s| ==> s[e] == ',') && forall k :: p <= k < e ==> s[k] != ','
    decreases |s| - p
  {
    if p == |s| || s[p] == ',' then p else FieldEnd(s, p + 1)
  }

  /** After the language range there is nothing, or a weight; spaces are allowed everywhere. */
  ghost predicate IsQuality(s: string, p: nat, e: nat, w: nat) {
    (Spaces(s, p, e) && w == WEIGHT_ONE) ||
    exists a, b, c, d, f :: IsQualityAt(s, p, a, b, c, d, f, e, w)
  }

  ghost predicate IsQualityAt(s: string, p: nat, a: nat, b: nat, c: nat, d: nat, f: nat, e: nat, w: nat) {
    a < b < c < d <= f <= e <= |s| &&
    Spaces(s, p, a) && s[a] == ';' && Spaces(s, a + 1, b) && s[b] == 'q' && Spaces(s, b + 1, c) && s[c] == '=' &&
    Spaces(s, c + 1, d) && IsWeight(s, d, f, w) && Spaces(s, f, e)
  }

  /** A language range, and how the locale is made from it. */
  ghost predicate IsTag(s: string, from: nat, to: nat) {
    from < to <= |s| && forall k :: from <= k < to ==> !Delimiter(s[k])
  }

  /** The field `p`..`e` - 1 mentions a locale with a weight. */
  ghost predicate IsMention(s: string, p: nat, e: nat, localeOf: string -> Option<string>, m: Mention) {
    exists t, u ::
      0 <= t < u <= e <= |s| && Spaces(s, p, t) && IsTag(s, t, u) && (u < e ==> Delimiter(s[u])) &&
      localeOf(s[t..u]) == Some(m.locale) && IsQuality(s, u, e, m.weight)
  }

  // ----- reading, from the start of each part

  function SpacesEnd(s: string, p: nat): (q: nat)
    requires p <= |s|
    ensures p <= q <= |s| && (q < |s| ==> s[q] != ' ') && Spaces(s, p, q)
    decreases |s| - p
  {
    if p < |s| && s[p] == ' ' then SpacesEnd(s, p + 1) else p
  }

  lemma SpacesAre(s: string, p: nat, q: nat)
    requires Spaces(s, p, q) && (q < |s| ==> s[q] != ' ')
    ensures SpacesEnd(s, p) == q
  {
  }

  function TagEnd(s: string, p: nat): (q: nat)
    requires p <= |s|
    ensures p <= q <= |s| && (q < |s| ==> Delimiter(s[q])) && forall k :: p <= k < q ==> !Delimiter(s[k])
    decreases |s| - p
  {
    if p < |s| && !Delimiter(s[p]) then TagEnd(s, p + 1) else p
  }

  function DigitsEnd(s: string, p: nat): (q: nat)
    requires p <= |s|
    ensures p <= q <= |s| && (q < |s| ==> !Digit(s[q])) && forall k :: p <= k < q ==> Digit(s[k])
    decreases |s| - p
  {
    if p < |s| && Digit(s[p]) then DigitsEnd(s, p + 1) else p
  }

  /** The end of the weight at `p`. */
  function WeightEnd(s: string, p: nat): (q: nat)
    requires p < |s|
    ensures p < q <= |s|
  {
    if p + 1 < |s| && s[p + 1] == '.' then DigitsEnd(s, p + 2) else p + 1
  }

  lemma WeightEndIs(s: string, from: nat, to: nat, w: nat)
    requires IsWeight(s, from, to, w) && (to < |s| ==> s[to] == ' ' || s[to] == ',')
    ensures WeightEnd(s, from) == to
  {
  }

  lemma WeightOnce(s: string, from: nat, to: nat, v: nat, w: nat)
    requires IsWeight(s, from, to, v) && IsWeight(s, from, to, w)
    ensures v == w
  {
    if to > from + 1 {
      RoundedOnce(v, w, Number(s, DigitValue(s[from]), from + 2, to), Power(to - (from + 2)));
    }
  }

  /** A weight as it is read: each part ends where the next one begins. */
  ghost predicate QualityRead(s: string, p: nat, w: nat)
    requires p <= |s|
  {
    var a := SpacesEnd(s, p);
    if a == |s| || s[a] == ',' then w == WEIGHT_ONE
    else
      s[a] == ';' &&
      var b := SpacesEnd(s, a + 1);
      b < |s| && s[b] == 'q' &&
      var c := SpacesEnd(s, b + 1);
      c < |s| && s[c] == '=' &&
      var d := SpacesEnd(s, c + 1);
      d < |s| && IsWeight(s, d, WeightEnd(s, d), w) &&
      var f := SpacesEnd(s, WeightEnd(s, d));
      f == |s| || s[f] == ','
  }

  lemma CommaEnds(s: string, p: nat, e: nat)
    requires p <= e <= |s| && (e < |s| ==> s[e] == ',') && forall k :: p <= k < e ==> s[k] != ','
    ensures FieldEnd(s, p) == e
  {
  }

  lemma QualityIsRead(s: string, p: nat, w: nat)
    requires p <= |s|
    ensures IsQuality(s, p, FieldEnd(s, p), w) <==> QualityRead(s, p, w)
  {
    QualityReads(s, p, w);
    if QualityRead(s, p, w) {
      ReadIsQuality(s, p, w);
    }
  }

  lemma QualityReads(s: string, p: nat, w: nat)
    requires p <= |s|
    ensures IsQuality(s, p, FieldEnd(s, p), w) ==> QualityRead(s, p, w)
  {
    hide IsWeight, SpacesEnd, FieldEnd, IsQualityAt, QualityRead;
    var e := FieldEnd(s, p);
    if Spaces(s, p, e) && w == WEIGHT_ONE {
      DefaultReads(s, p, w);
    } else if IsQuality(s, p, e, w) {
      var a, b, c, d, f :| IsQualityAt(s, p, a, b, c, d, f, e, w);
      QualityReadsAt(s, p, a, b, c, d, f, w);
    }
  }

  lemma DefaultReads(s: string, p: nat, w: nat)
    requires p <= |s| && Spaces(s, p, FieldEnd(s, p)) && w == WEIGHT_ONE
    ensures QualityRead(s, p, w)
  {
    SpacesAre(s, p, FieldEnd(s, p));
  }

  lemma QualityReadsAt(s: string, p: nat, a: nat, b: nat, c: nat, d: nat, f: nat, w: nat)
    requires p <= |s| && IsQualityAt(s, p, a, b, c, d, f, FieldEnd(s, p), w)
    ensures QualityRead(s, p, w)
  {
    hide IsWeight, SpacesEnd, FieldEnd, WeightEnd;
    var e := FieldEnd(s, p);
    SpacesAre(s, p, a);
    SpacesAre(s, a + 1, b);
    SpacesAre(s, b + 1, c);
    WeightStarts(s, d, f, w);
    SpacesAre(s, c + 1, d);
    WeightEndIs(s, d, f, w);
    SpacesAre(s, f, e);
  }

  lemma WeightStarts(s: string, from: nat, to: nat, w: nat)
    requires IsWeight(s, from, to, w)
    ensures from < to <= |s| && s[from] != ' '
  {
  }

  lemma ReadIsQuality(s: string, p: nat, w: nat)
    requires p <= |s| && QualityRead(s, p, w)
    ensures IsQuality(s, p, FieldEnd(s, p), w)
  {
    hide IsWeight, SpacesEnd, FieldEnd, WeightEnd;
    var a := SpacesEnd(s, p);
    if a == |s| || s[a] == ',' {
      CommaEnds(s, p, a);
    } else {
      var b := SpacesEnd(s, a + 1);
      var c := SpacesEnd(s, b + 1);
      var d := SpacesEnd(s, c + 1);
      var f := WeightEnd(s, d);
      var e := SpacesEnd(s, f);
      WeightHasNoComma(s, d, f, w);
      CommaEnds(s, p, e);
      assert IsQualityAt(s, p, a, b, c, d, f, e, w);
    }
  }

  lemma WeightHasNoComma(s: string, from: nat, to: nat, w: nat)
    requires IsWeight(s, from, to, w)
    ensures forall k :: from <= k < to ==> s[k] != ','
  {
  }

  /** A mention as it is read. */
  ghost predicate MentionRead(s: string, p: nat, localeOf: string -> Option<string>, m: Mention)
    requires p <= |s|
  {
    var t := SpacesEnd(s, p);
    var u := TagEnd(s, t);
    t < u && localeOf(s[t..u]) == Some(m.locale) && QualityRead(s, u, m.weight)
  }

  lemma MentionIsRead(s: string, p: nat, localeOf: string -> Option<string>, m: Mention)
    requires p <= |s|
    ensures IsMention(s, p, FieldEnd(s, p), localeOf, m) <==> MentionRead(s, p, localeOf, m)
  {
    hide IsQuality, QualityRead, SpacesEnd, TagEnd, FieldEnd;
    var e := FieldEnd(s, p);
    if IsMention(s, p, e, localeOf, m) {
      var t, u :|
        0 <= t < u <= e <= |s| && Spaces(s, p, t) && IsTag(s, t, u) && (u < e ==> Delimiter(s[u])) &&
        localeOf(s[t..u]) == Some(m.locale) && IsQuality(s, u, e, m.weight);
      SpacesAre(s, p, t);
      TagAre(s, t, u);
      CommaEnds(s, u, e);
      QualityIsRead(s, u, m.weight);
    }
    if MentionRead(s, p, localeOf, m) {
      var t := SpacesEnd(s, p);
      var u := TagEnd(s, t);
      CommaEnds(s, p, FieldEnd(s, u));
      QualityIsRead(s, u, m.weight);
      assert Spaces(s, p, t) && IsTag(s, t, u);
    }
  }

  lemma TagAre(s: string, p: nat, q: nat)
    requires IsTag(s, p, q) && (q < |s| ==> Delimiter(s[q]))
    ensures TagEnd(s, p) == q
  {
  }

  /** A field mentions at most one locale, with one weight. */
  lemma MentionOnce(s: string, p: nat, localeOf: string -> Option<string>, m: Mention, n: Mention)
    requires p <= |s| && MentionRead(s, p, localeOf, m) && MentionRead(s, p, localeOf, n)
    ensures m == n
  {
    var u := TagEnd(s, SpacesEnd(s, p));
    var a := SpacesEnd(s, u);
    if a < |s| && s[a] == ';' {
      var d := SpacesEnd(s, SpacesEnd(s, SpacesEnd(s, a + 1) + 1) + 1);
      WeightOnce(s, d, WeightEnd(s, d), m.weight, n.weight);
    }
  }

  // ----- the whole string

  /** The mentions of one field; none if it is not well-formed. */
  ghost function FieldMentions(s: string, p: nat, localeOf: string -> Option<string>): Option<seq<Mention>>
    requires p <= |s|
  {
    var e := FieldEnd(s, p);
    if Spaces(s, p, e) then Some([])
    else if m :| IsMention(s, p, e, localeOf, m) then Some([m])
    else None
  }

  /** The mentions of all fields from `p` on; none if one of them is not well-formed. */
  ghost function Mentions(s: string, p: nat, localeOf: string -> Option<string>): Option<seq<Mention>>
    requires p <= |s|
    decreases |s| - p
  {
    var e := FieldEnd(s, p);
    match FieldMentions(s, p, localeOf)
    case None => None
    case Some(first) =>
      if e == |s| then Some(first)
      else match Mentions(s, e + 1, localeOf)
        case None => None
        case Some(others) => Some(first + others)
  }
}
