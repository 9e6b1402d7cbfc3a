/**
 Writing Accept-Language strings: every list of fields, with any tags, weights and spaces, is
 read as just that list.
 */
module AcceptPrinting {
  import opened Common
  import opened AcceptLanguage
  import opened LocalePriorityLists

  const DIGITS := "0123456789"

  // ----- parts of a string

  /** The text `part` stands at `p`. */
  ghost predicate At(s: string, p: nat, part: string) {
    p + |part| <= |s| && s[p..p + |part|] == part
  }

  lemma AtBoth(s: string, p: nat, a: string, b: string)
    requires At(s, p, a + b)
    ensures At(s, p, a) && At(s, p + |a|, b)
  {
    var both := s[p..p + |a + b|];
    assert both[..|a|] == s[p..p + |a|] && both[|a|..] == s[p + |a|..p + |a| + |b|];
  }

  lemma AtChar(s: string, p: nat, part: string, k: nat)
    requires At(s, p, part) && k < |part|
    ensures s[p + k] == part[k]
  {
    assert s[p + k] == s[p..p + |part|][k];
  }

  lemma AtChars(s: string, p: nat, part: string)
    requires At(s, p, part)
    ensures forall k :: p <= k < p + |part| ==> s[k] == part[k - p]
  {
    assert forall k :: p <= k < p + |part| ==> s[k] == s[p..p + |part|][k - p];
  }

  function Gap(n: nat): (r: string)
    ensures |r| == n
  {
    seq(n, _ => ' ')
  }

  lemma GapAt(s: string, p: nat, n: nat)
    requires At(s, p, Gap(n))
    ensures Spaces(s, p, p + n)
  {
    AtChars(s, p, Gap(n));
  }

  // ----- weights

  /** The ten digits have the values 0 to 9, in this order. */
  lemma DigitsInOrder(d: nat)
    requires d <= 9
    ensures Digit(DIGITS[d]) && DigitValue(DIGITS[d]) == d
  {
  }

  ghost predicate AreDigits(digits: seq<nat>) {
    forall k :: 0 <= k < |digits| ==> digits[k] <= 9
  }

  function FractionText(digits: seq<nat>): (r: string)
    requires AreDigits(digits)
    ensures |r| == |digits|
  {
    seq(|digits|, k requires 0 <= k < |digits| => DIGITS[digits[k]])
  }

  /** A number in decimal notation. */
  function Decimal(lead: nat, digits: seq<nat>): (r: string)
    requires lead <= 9 && AreDigits(digits)
  {
    if digits == [] then [DIGITS[lead]] else [DIGITS[lead]] + ("." + FractionText(digits))
  }

  function DigitOrZero(digits: seq<nat>, k: nat): nat {
    if k < |digits| then digits[k] else 0
  }

  /** Its thousandths, rounded half up. */
  function Thousandths(lead: nat, digits: seq<nat>): nat {
    1000 * lead + 100 * DigitOrZero(digits, 0) + 10 * DigitOrZero(digits, 1) + DigitOrZero(digits, 2) +
    (if DigitOrZero(digits, 3) >= 5 then 1 else 0)
  }

  /** The digits up to `n`, appended to `lead`. */
  ghost function Value(lead: nat, digits: seq<nat>, n: nat): nat
    requires n <= |digits|
  {
    if n == 0 then lead else 10 * Value(lead, digits, n - 1) + digits[n - 1]
  }

  lemma FractionAt(digits: seq<nat>, k: nat)
    requires AreDigits(digits) && k < |digits|
    ensures Digit(FractionText(digits)[k]) && DigitValue(FractionText(digits)[k]) == digits[k]
  {
    DigitsInOrder(digits[k]);
  }

  lemma {:induction false} NumberIsValue(s: string, p: nat, lead: nat, digits: seq<nat>, n: nat)
    requires AreDigits(digits) && At(s, p, FractionText(digits)) && n <= |digits|
    ensures forall k :: p <= k < p + n ==> Digit(s[k])
    ensures Number(s, lead, p, p + n) == Value(lead, digits, n)
  {
    if n > 0 {
      hide At, Fraction;
      NumberIsValue(s, p, lead, digits, n - 1);
      AtChar(s, p, FractionText(digits), n - 1);
      FractionAt(digits, n - 1);
    }
  }

  /** The first four digits decide about the thousandths. */
  lemma {:induction false} ValueRounds(lead: nat, digits: seq<nat>, n: nat)
    requires AreDigits(digits) && n <= |digits|
    ensures Rounded(Thousandths(lead, digits[..n]), Value(lead, digits, n), Power(n))
  {
    if n > 4 {
      hide Rounded;
      ValueRounds(lead, digits, n - 1);
      PowerMultiple(n - 1);
      FurtherDigit(Thousandths(lead, digits[..n]), Value(lead, digits, n - 1), Power(n - 1), digits[n - 1]);
    } else {
      FewRound(lead, digits, n);
    }
  }

  lemma FewRound(lead: nat, digits: seq<nat>, n: nat)
    requires AreDigits(digits) && n <= 4 && n <= |digits|
    ensures Rounded(Thousandths(lead, digits[..n]), Value(lead, digits, n), Power(n))
  {
    SmallPowers();
    ValueOfFew(lead, digits, n);
    ThousandthsOfFew(lead, digits, n);
    hide Value, Power, Thousandths;
  }

  lemma ThousandthsOfFew(lead: nat, digits: seq<nat>, n: nat)
    requires n <= 4 && n <= |digits|
    ensures var w := Thousandths(lead, digits[..n]);
            (n == 0 ==> w == 1000 * lead) && (n == 1 ==> w == 1000 * lead + 100 * digits[0]) &&
            (n == 2 ==> w == 1000 * lead + 100 * digits[0] + 10 * digits[1]) &&
            (n == 3 ==> w == 1000 * lead + 100 * digits[0] + 10 * digits[1] + digits[2]) &&
            (n == 4 ==> w == 1000 * lead + 100 * digits[0] + 10 * digits[1] + digits[2] +
                             (if digits[3] >= 5 then 1 else 0))
  {
  }

  lemma ValueOfFew(lead: nat, digits: seq<nat>, n: nat)
    requires n <= 4 && n <= |digits|
    ensures n == 1 ==> Value(lead, digits, n) == 10 * lead + digits[0]
    ensures n == 2 ==> Value(lead, digits, n) == 100 * lead + 10 * digits[0] + digits[1]
    ensures n == 3 ==> Value(lead, digits, n) == 1000 * lead + 100 * digits[0] + 10 * digits[1] + digits[2]
    ensures n == 4 ==>
              Value(lead, digits, n) ==
              10000 * lead + 1000 * digits[0] + 100 * digits[1] + 10 * digits[2] + digits[3]
  {
    if n > 0 {
      ValueOfFew(lead, digits, n - 1);
    }
  }

  /** A decimal number from 0 to 1 is a weight, namely its rounded thousandths, and no other one. */
  lemma DecimalIsWeight(s: string, p: nat, lead: nat, digits: seq<nat>, w: nat)
    requires lead <= 1 && AreDigits(digits) && At(s, p, Decimal(lead, digits))
    ensures IsWeight(s, p, p + |Decimal(lead, digits)|, w) <==>
            w == Thousandths(lead, digits) && w <= 1000
  {
    DigitsInOrder(lead);
    if digits == [] {
      AtChar(s, p, [DIGITS[lead]], 0);
    } else {
      FractionIsWeight(s, p, DIGITS[lead], digits, w);
    }
  }

  lemma FractionIsWeight(s: string, p: nat, c: char, digits: seq<nat>, w: nat)
    requires (c == '0' || c == '1') && AreDigits(digits) && At(s, p, [c] + ("." + FractionText(digits)))
    ensures IsWeight(s, p, p + 2 + |digits|, w) <==>
            w == Thousandths(DigitValue(c), digits) && w <= 1000
  {
    hide At, Fraction, Thousandths, IsWeight, Number, Power, Rounded;
    AtBoth(s, p, [c], "." + FractionText(digits));
    AtBoth(s, p + 1, ".", FractionText(digits));
    AtChar(s, p, [c], 0);
    AtChar(s, p + 1, ".", 0);
    FractionIsRounded(s, p + 2, DigitValue(c), digits, w);
    WithFraction(s, p, p + 2 + |digits|, w);
  }

  lemma WithFraction(s: string, from: nat, to: nat, w: nat)
    requires from + 2 <= to <= |s| && (s[from] == '0' || s[from] == '1') && s[from + 1] == '.'
    requires forall k :: from + 2 <= k < to ==> Digit(s[k])
    ensures IsWeight(s, from, to, w) <==>
            w <= WEIGHT_ONE && Rounded(w, Number(s, DigitValue(s[from]), from + 2, to), Power(to - (from + 2)))
  {
    hide Rounded, Number, Power;
  }

  lemma FractionIsRounded(s: string, p: nat, lead: nat, digits: seq<nat>, w: nat)
    requires AreDigits(digits) && At(s, p, FractionText(digits))
    ensures p + |digits| <= |s| && forall k :: p <= k < p + |digits| ==> Digit(s[k])
    ensures Rounded(w, Number(s, lead, p, p + |digits|), Power(|digits|)) <==> w == Thousandths(lead, digits)
  {
    hide Number, Power, Value, Rounded, Thousandths, Fraction;
    NumberIsValue(s, p, lead, digits, |digits|);
    ValueRounds(lead, digits, |digits|);
    assert digits[..|digits|] == digits;
    var v := Thousandths(lead, digits);
    if Rounded(w, Value(lead, digits, |digits|), Power(|digits|)) {
      RoundedOnce(v, w, Value(lead, digits, |digits|), Power(|digits|));
    }
  }

  // ----- fields

  /** Something without a space, a comma or a semicolon. */
  predicate Plainly(tag: string) {
    tag != "" && ' ' !in tag && ',' !in tag && ';' !in tag
  }

  /** A field: nothing but spaces, a language range alone, or one with a weight; and the spaces between the parts. */
  datatype Field =
    | Empty(before: nat)
    | Plain(before: nat, tag: string, after: nat)
    | Weighted(before: nat, tag: string, afterTag: nat, afterSemicolon: nat, afterQ: nat, afterEquals: nat,
               lead: nat, digits: seq<nat>, after: nat)
  {
    ghost predicate Valid(localeOf: string -> Option<string>) {
      match this
      case Empty(_) => true
      case Plain(_, tag, _) => Plainly(tag) && localeOf(tag).Some?
      case Weighted(_, tag, _, _, _, _, lead, digits, _) =>
        Plainly(tag) && localeOf(tag).Some? && AreDigits(digits) && lead <= 1 && Thousandths(lead, digits) <= 1000
    }

    /** What follows the language range. */
    ghost function Quality(): string
      requires Weighted? ==> lead <= 1 && AreDigits(digits)
    {
      match this
      case Empty(_) => ""
      case Plain(_, _, after) => Gap(after)
      case Weighted(_, _, afterTag, afterSemicolon, afterQ, afterEquals, lead, digits, after) =>
        Gap(afterTag) + (";" + (Gap(afterSemicolon) + ("q" + (Gap(afterQ) + ("=" + (
            Gap(afterEquals) + (Decimal(lead, digits) + Gap(after))))))))
    }

    ghost function Text(): string
      requires Weighted? ==> lead <= 1 && AreDigits(digits)
    {
      if Empty? then Gap(before) else Gap(before) + (tag + Quality())
    }

    /** What the field mentions. */
    ghost function Mentioned(localeOf: string -> Option<string>): seq<Mention>
      requires Valid(localeOf)
    {
      match this
      case Empty(_) => []
      case Plain(_, tag, _) => [Mention(localeOf(tag).value, 1000)]
      case Weighted(_, tag, _, _, _, _, lead, digits, _) => [Mention(localeOf(tag).value, Thousandths(lead, digits))]
    }
  }

  lemma QualityIsWritten(s: string, u: nat, f: Field)
    requires f.Weighted? && f.lead <= 1 && AreDigits(f.digits) && Thousandths(f.lead, f.digits) <= 1000
    requires At(s, u, f.Quality())
    ensures IsQuality(s, u, u + |f.Quality()|, Thousandths(f.lead, f.digits))
    ensures u + |f.Quality()| <= |s| && forall k :: u <= k < u + |f.Quality()| ==> s[k] != ','
    ensures Delimiter(s[u])
  {
    hide At, IsWeight, Spaces, Decimal, Thousandths, IsQualityAt, IsQuality, Gap;
    var number, w := Decimal(f.lead, f.digits), Thousandths(f.lead, f.digits);
    var rest := Gap(f.afterEquals) + (number + Gap(f.after));
    assert f.Quality() ==
           Gap(f.afterTag) + (";" + (Gap(f.afterSemicolon) + ("q" + (Gap(f.afterQ) + ("=" + rest)))));
    SignsAreWritten(s, u, f.afterTag, f.afterSemicolon, f.afterQ, rest);
    var a := u + f.afterTag;
    var b := a + 1 + f.afterSemicolon;
    var c := b + 1 + f.afterQ;
    NumberIsWritten(s, c + 1, f.afterEquals, f.lead, f.digits, f.after);
    var d := c + 1 + f.afterEquals;
    QualityParts(s, u, a, b, c, d, d + |number|, d + |number| + f.after, w);
    QualityHasNoComma(s, u, a, b, c, d, d + |number|, d + |number| + f.after, w);
    AtFits(s, u, f.Quality());
  }

  lemma AtFits(s: string, p: nat, part: string)
    requires At(s, p, part)
    ensures p + |part| <= |s|
  {
  }

  lemma SignsAreWritten(s: string, u: nat, i: nat, j: nat, k: nat, rest: string)
    requires At(s, u, Gap(i) + (";" + (Gap(j) + ("q" + (Gap(k) + ("=" + rest))))))
    ensures var a := u + i;
            var b := a + 1 + j;
            var c := b + 1 + k;
            c < |s| && Spaces(s, u, a) && s[a] == ';' && Spaces(s, a + 1, b) && s[b] == 'q' && Spaces(s, b + 1, c) &&
            s[c] == '=' && At(s, c + 1, rest) && Delimiter(s[u])
  {
    hide At, Spaces, Gap;
    GapThenChar(s, u, i, ';', Gap(j) + ("q" + (Gap(k) + ("=" + rest))));
    GapThenChar(s, u + i + 1, j, 'q', Gap(k) + ("=" + rest));
    GapThenChar(s, u + i + 1 + j + 1, k, '=', rest);
  }

  lemma NumberIsWritten(s: string, p: nat, i: nat, lead: nat, digits: seq<nat>, j: nat)
    requires lead <= 1 && AreDigits(digits) && Thousandths(lead, digits) <= 1000
    requires At(s, p, Gap(i) + (Decimal(lead, digits) + Gap(j)))
    ensures var d := p + i;
            var e := d + |Decimal(lead, digits)|;
            d < e && e + j <= |s| && Spaces(s, p, d) && IsWeight(s, d, e, Thousandths(lead, digits)) &&
            Spaces(s, e, e + j)
  {
    hide At, Spaces, Gap, IsWeight, Thousandths;
    var number := Decimal(lead, digits);
    AtBoth(s, p, Gap(i), number + Gap(j));
    AtBoth(s, p + i, number, Gap(j));
    GapAt(s, p, i);
    GapAt(s, p + i + |number|, j);
    AtFits(s, p + i + |number|, Gap(j));
    DecimalIsWeight(s, p + i, lead, digits, Thousandths(lead, digits));
  }

  lemma QualityParts(s: string, p: nat, a: nat, b: nat, c: nat, d: nat, f: nat, e: nat, w: nat)
    requires a < b < c < d <= f <= e <= |s|
    requires Spaces(s, p, a) && s[a] == ';' && Spaces(s, a + 1, b) && s[b] == 'q' && Spaces(s, b + 1, c) && s[c] == '='
    requires Spaces(s, c + 1, d) && IsWeight(s, d, f, w) && Spaces(s, f, e)
    ensures IsQualityAt(s, p, a, b, c, d, f, e, w) && IsQuality(s, p, e, w)
  {
    hide Spaces, IsWeight;
    assert IsQualityAt(s, p, a, b, c, d, f, e, w);
  }

  lemma QualityHasNoComma(s: string, p: nat, a: nat, b: nat, c: nat, d: nat, f: nat, e: nat, w: nat)
    requires IsQualityAt(s, p, a, b, c, d, f, e, w)
    ensures forall k :: p <= k < e ==> s[k] != ','
  {
    hide IsWeight;
    WeightHasNoComma(s, d, f, w);
    forall k | p <= k < e
      ensures s[k] != ','
    {
      if k < a {
      } else if a < k < b {
      } else if b < k < c {
      } else if c < k < d {
      } else if d <= k < f {
      } else if f <= k {
      }
    }
  }

  lemma GapThenChar(s: string, p: nat, n: nat, c: char, rest: string)
    requires At(s, p, Gap(n) + ([c] + rest))
    ensures Spaces(s, p, p + n) && p + n < |s| && s[p + n] == c && At(s, p + n + 1, rest)
    ensures s[p] == if n == 0 then c else ' '
  {
    AtBoth(s, p, Gap(n), [c] + rest);
    AtBoth(s, p + n, [c], rest);
    GapAt(s, p, n);
    AtChar(s, p + n, [c], 0);
  }

  /** What follows a language range, with a weight or without one. */
  lemma QualityOf(s: string, u: nat, f: Field, localeOf: string -> Option<string>)
    requires f.Valid(localeOf) && !f.Empty? && At(s, u, f.Quality())
    ensures var e := u + |f.Quality()|;
            e <= |s| && IsQuality(s, u, e, f.Mentioned(localeOf)[0].weight) && (u < e ==> Delimiter(s[u])) &&
            forall k :: u <= k < e ==> s[k] != ','
  {
    hide IsQualityAt, IsWeight, Thousandths, Decimal, At;
    AtFits(s, u, f.Quality());
    if f.Plain? {
      GapAt(s, u, f.after);
    } else {
      hide IsQuality;
      QualityIsWritten(s, u, f);
    }
  }

  lemma TagIsWritten(s: string, t: nat, tag: string)
    requires Plainly(tag) && At(s, t, tag)
    ensures IsTag(s, t, t + |tag|) && s[t..t + |tag|] == tag
    ensures forall k :: t <= k < t + |tag| ==> s[k] != ',' && s[k] != ' '
  {
    AtChars(s, t, tag);
  }

  /** A field that is written before a comma or the end of the string ends there, and mentions what it is to mention. */
  lemma FieldIsWritten(s: string, p: nat, f: Field, localeOf: string -> Option<string>)
    requires f.Valid(localeOf) && !f.Empty? && At(s, p, f.Text())
    requires p + |f.Text()| < |s| ==> s[p + |f.Text()|] == ','
    ensures p + |f.Text()| <= |s| && FieldEnd(s, p) == p + |f.Text()|
    ensures SpacesEnd(s, p) < |s| && s[SpacesEnd(s, p)] != ','
    ensures MentionRead(s, p, localeOf, f.Mentioned(localeOf)[0])
  {
    hide At, IsQuality, IsMention, SpacesEnd, FieldEnd, MentionRead, Field.Quality, Thousandths;
    var t, u := p + f.before, p + f.before + |f.tag|;
    var e := u + |f.Quality()|;
    AtBoth(s, p, Gap(f.before), f.tag + f.Quality());
    AtBoth(s, t, f.tag, f.Quality());
    GapAt(s, p, f.before);
    TagIsWritten(s, t, f.tag);
    QualityOf(s, u, f, localeOf);
    SpacesAre(s, p, t);
    CommaEnds(s, p, e);
    var m := f.Mentioned(localeOf)[0];
    MentionParts(s, p, t, u, e, localeOf, m);
    MentionIsRead(s, p, localeOf, m);
  }

  lemma MentionParts(s: string, p: nat, t: nat, u: nat, e: nat, localeOf: string -> Option<string>, m: Mention)
    requires t < u <= e <= |s| && Spaces(s, p, t) && IsTag(s, t, u) && (u < e ==> Delimiter(s[u]))
    requires localeOf(s[t..u]) == Some(m.locale) && IsQuality(s, u, e, m.weight)
    ensures IsMention(s, p, e, localeOf, m)
  {
  }

  // ----- lists

  ghost predicate AllValid(fields: seq<Field>, localeOf: string -> Option<string>) {
    forall k :: 0 <= k < |fields| ==> fields[k].Valid(localeOf)
  }

  /** The fields from the `k`-th on, separated by commas. */
  ghost function Written(fields: seq<Field>, k: nat, localeOf: string -> Option<string>): string
    requires k < |fields| && AllValid(fields, localeOf)
    decreases |fields| - k
  {
    if k + 1 == |fields| then fields[k].Text() else fields[k].Text() + ("," + Written(fields, k + 1, localeOf))
  }

  ghost function MentionedFrom(fields: seq<Field>, k: nat, localeOf: string -> Option<string>): seq<Mention>
    requires k < |fields| && AllValid(fields, localeOf)
    decreases |fields| - k
  {
    if k + 1 == |fields| then fields[k].Mentioned(localeOf)
    else fields[k].Mentioned(localeOf) + MentionedFrom(fields, k + 1, localeOf)
  }

  /** One field adds what it mentions. */
  lemma FieldAdds(s: string, p: nat, f: Field, localeOf: string -> Option<string>)
    requires f.Valid(localeOf) && At(s, p, f.Text())
    requires p + |f.Text()| < |s| ==> s[p + |f.Text()|] == ','
    ensures var e := p + |f.Text()|;
            e <= |s| &&
            Mentions(s, p, localeOf) ==
            Prepended(f.Mentioned(localeOf), if e == |s| then Some([]) else Mentions(s, e + 1, localeOf))
  {
    hide At, Mentions, SpacesEnd, FieldEnd, MentionRead, Field.Quality, Thousandths;
    var e := p + |f.Text()|;
    AtFits(s, p, f.Text());
    PrependedToNothing(f.Mentioned(localeOf));
    if f.Empty? {
      GapAt(s, p, f.before);
      SpacesAre(s, p, e);
      EmptyField(s, p, localeOf);
      if e < |s| {
        PrependedNothing(Mentions(s, e + 1, localeOf));
      }
    } else {
      FieldIsWritten(s, p, f, localeOf);
      MentionField(s, p, localeOf);
    }
  }

  lemma ValidIsWritable(f: Field, localeOf: string -> Option<string>)
    requires f.Valid(localeOf)
    ensures f.Weighted? ==> f.lead <= 1 && AreDigits(f.digits)
  {
  }

  /** A list that stands at the end of a string is read as it is. */
  lemma {:induction false} ListIsRead(s: string, p: nat, fields: seq<Field>, k: nat,
                                      localeOf: string -> Option<string>)
    requires k < |fields| && AllValid(fields, localeOf)
    requires At(s, p, Written(fields, k, localeOf)) && p + |Written(fields, k, localeOf)| == |s|
    ensures Mentions(s, p, localeOf) == Some(MentionedFrom(fields, k, localeOf))
    decreases |fields| - k
  {
    hide At, Mentions, Field.Text, Field.Mentioned, Field.Valid;
    var f := fields[k];
    ValidIsWritable(f, localeOf);
    PrependedToNothing(f.Mentioned(localeOf));
    if k + 1 < |fields| {
      var others := Written(fields, k + 1, localeOf);
      var e := p + |f.Text()|;
      AtBoth(s, p, f.Text(), "," + others);
      AtBoth(s, e, ",", others);
      AtChar(s, e, ",", 0);
      ListIsRead(s, e + 1, fields, k + 1, localeOf);
    }
    FieldAdds(s, p, f, localeOf);
  }

  /** A string with any list of fields is well-formed, and mentions just what the fields do, in their order. */
  lemma WrittenIsRead(fields: seq<Field>, localeOf: string -> Option<string>)
    requires fields != [] && AllValid(fields, localeOf)
    ensures Mentions(Written(fields, 0, localeOf), 0, localeOf) == Some(MentionedFrom(fields, 0, localeOf))
  {
    ListIsRead(Written(fields, 0, localeOf), 0, fields, 0, localeOf);
  }

  lemma TwoFields(fields: seq<Field>, localeOf: string -> Option<string>)
    requires |fields| == 2 && fields[0].Valid(localeOf) && fields[1].Valid(localeOf)
    ensures Mentions(fields[0].Text() + ("," + fields[1].Text()), 0, localeOf) ==
            Some(fields[0].Mentioned(localeOf) + fields[1].Mentioned(localeOf))
  {
    hide Mentions, Field.Text, Field.Mentioned;
    assert AllValid(fields, localeOf);
    hide Field.Valid;
    WrittenIsRead(fields, localeOf);
    assert Written(fields, 1, localeOf) == fields[1].Text();
    assert MentionedFrom(fields, 1, localeOf) == fields[1].Mentioned(localeOf);
  }

  /** A tag with a weight of one fraction digit, without any spaces. */
  function Tenths(tag: string, d: nat): Field {
    Weighted(0, tag, 0, 0, 0, 0, 0, [d], 0)
  }

  lemma TenthsText(tag: string, d: nat)
    requires d <= 9
    ensures Tenths(tag, d).Text() == tag + (";q=0." + [DIGITS[d]])
  {
    hide Gap, Decimal;
    var number := Decimal(0, [d]);
    OneDigit(d);
    NoGap(number);
    NoGap("=" + number);
    NoGap("q" + ("=" + number));
    NoGap(";" + ("q" + ("=" + number)));
    NoGap(tag + (";" + ("q" + ("=" + number))));
    assert ";" + ("q" + ("=" + ("0." + [DIGITS[d]]))) == ";q=0." + [DIGITS[d]];
  }

  lemma OneDigit(d: nat)
    requires d <= 9
    ensures Decimal(0, [d]) == "0." + [DIGITS[d]]
  {
    assert FractionText([d]) == [DIGITS[d]];
  }

  lemma NoGap(rest: string)
    ensures Gap(0) + rest == rest && rest + Gap(0) == rest
  {
  }

  lemma TenthsMentioned(tag: string, d: nat, localeOf: string -> Option<string>)
    requires d <= 9 && Plainly(tag) && localeOf(tag) == Some(tag)
    ensures Tenths(tag, d).Valid(localeOf) && Tenths(tag, d).Mentioned(localeOf) == [Mention(tag, 100 * d)]
  {
  }

  /** A list of two weights, for example. */
  lemma TwoWeights(localeOf: string -> Option<string>)
    requires localeOf("en") == Some("en") && localeOf("de") == Some("de")
    ensures Mentions("en;q=0.8,de;q=0.3", 0, localeOf) == Some([Mention("en", 800), Mention("de", 300)])
  {
    hide Mentions, Field.Text, Field.Valid, Field.Mentioned, Tenths;
    var en, de := Tenths("en", 8), Tenths("de", 3);
    TenthsMentioned("en", 8, localeOf);
    TenthsMentioned("de", 3, localeOf);
    TwoFields([en, de], localeOf);
    TenthsText("en", 8);
    TenthsText("de", 3);
    assert "en" + (";q=0." + "8") + ("," + ("de" + (";q=0." + "3"))) == "en;q=0.8,de;q=0.3";
    assert [Mention("en", 800)] + [Mention("de", 300)] == [Mention("en", 800), Mention("de", 300)];
  }
}
