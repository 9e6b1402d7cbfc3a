/** UTF-8 and UTF-16 transcoding of one scalar, `src/Utf.h`. */
module Utf {
  import opened Common
  import opened UnicodeText

  const REPLACEMENT := 0xfffd

  /** Reads `extra` more bytes of a sequence; U+FFFD if one of them is missing. */
  function Continued(s: seq<Byte>, p: nat, extra: nat, scalar: nat): (r: (nat, nat))
    requires p <= |s|
    ensures p <= r.1 <= |s|
    decreases extra
  {
    if extra == 0 then (scalar, p)
    else if p == |s| || !Tail(s[p]) then (REPLACEMENT, p)
    else Continued(s, p + 1, extra - 1, scalar * 0x40 + s[p] % 0x40)
  }

  /** The scalar at `p`, and where the next one begins. Neither overlong forms nor surrogates are rejected. */
  function Utf8At(s: seq<Byte>, p: nat): (r: (nat, nat))
    requires p < |s|
    ensures p < r.1 <= |s|
  {
    var b: int := s[p];
    if b < 0x80 then (b, p + 1)
    else if b < 0xc0 then (REPLACEMENT, p + 1)
    else if b < 0xe0 then Continued(s, p + 1, 1, b % 0x20)
    else if b < 0xf0 then Continued(s, p + 1, 2, b % 0x10)
    else if b < 0xf8 then Continued(s, p + 1, 3, b % 0x08)
    else (REPLACEMENT, p + 1)
  }

  method DecodeUtf8(s: seq<Byte>, start: nat) returns (scalar: nat, p: nat)
    requires start <= |s|
    ensures if start == |s| then scalar == 0 && p == start else (scalar, p) == Utf8At(s, start)
  {
    p := start;
    if p >= |s| {
      return 0, p;
    }
    var b0 := s[p] as int;
    p := p + 1;
    var extra;
    if b0 < 0x80 {
      return b0, p;
    } else if b0 < 0xc0 {
      return REPLACEMENT, p;
    } else if b0 < 0xe0 {
      scalar, extra := b0 % 0x20, 1;
    } else if b0 < 0xf0 {
      scalar, extra := b0 % 0x10, 2;
    } else if b0 < 0xf8 {
      scalar, extra := b0 % 0x08, 3;
    } else {
      return REPLACEMENT, p;
    }
    for i := 0 to extra
      invariant p <= |s| && Continued(s, p, extra - i, scalar) == Utf8At(s, start)
    {
      if p >= |s| || !Tail(s[p]) {
        return REPLACEMENT, p;
      }
      scalar := scalar * 0x40 + s[p] % 0x40;
      p := p + 1;
    }
  }

  /** The scalar at `p` of UTF-16 text, and where the next one begins; unpaired surrogates are scalars. */
  function DecodeUtf16(s: seq<Unit>, p: nat): (r: (nat, nat))
    requires p < |s|
    ensures r.0 == CodePointAt(s, p) && r.1 == After(s, p) && r.0 <= 0x10_ffff
  {
    var hi: int := s[p];
    if 0xd800 <= hi <= 0xdbff && p + 1 < |s| && 0xdc00 <= s[p + 1] <= 0xdfff
    then (0x1_0000 + (hi - 0xd800) * 0x400 + (s[p + 1] - 0xdc00), p + 2)
    else (hi, p + 1)
  }

  function EncodeUtf16(scalar: nat): (r: seq<Unit>)
    ensures |r| == if 0x1_0000 <= scalar <= 0x10_ffff then 2 else 1
  {
    if scalar <= 0xffff then [scalar]
    else if scalar > 0x10_ffff then [REPLACEMENT]
    else [0xd800 + (scalar - 0x1_0000) / 0x400, 0xdc00 + (scalar - 0x1_0000) % 0x400]
  }

  function EncodeUtf8(scalar: nat): (r: seq<Byte>)
    requires scalar < 0x20_0000
    ensures 1 <= |r| <= 4
  {
    if scalar < 0x80 then [scalar]
    else if scalar < 0x800 then [0xc0 + scalar / 0x40, 0x80 + scalar % 0x40]
    else if scalar < 0x1_0000 then [0xe0 + scalar / 0x1000, 0x80 + scalar / 0x40 % 0x40, 0x80 + scalar % 0x40]
    else [0xf0 + scalar / 0x4_0000, 0x80 + scalar / 0x1000 % 0x40, 0x80 + scalar / 0x40 % 0x40, 0x80 + scalar % 0x40]
  }

  /** How many bytes a lead byte announces, and what it contributes. */
  function Lead(b: Byte): (r: (nat, nat)) {
    if 0xc0 <= b < 0xe0 then (2, b - 0xc0) else if 0xe0 <= b < 0xf0 then (3, b - 0xe0)
    else if 0xf0 <= b < 0xf8 then (4, b - 0xf0) else (1, b)
  }

  lemma ContinuedStep(s: seq<Byte>, p: nat, extra: nat, scalar: nat)
    requires p < |s| && Tail(s[p]) && 0 < extra
    ensures Continued(s, p, extra, scalar) == Continued(s, p + 1, extra - 1, scalar * 0x40 + SixBits(s[p]))
    ensures extra == 1 ==> Continued(s, p, extra, scalar) == (scalar * 0x40 + SixBits(s[p]), p + 1)
  {
  }

  /** A complete sequence is read as the number that its bits make up. */
  lemma CompleteIsRead(s: seq<Byte>, p: nat, n: nat)
    requires p + n <= |s| && 1 <= n && Lead(s[p]).0 == n && (n == 1 ==> s[p] < 0x80)
    requires forall k :: p < k < p + n ==> Tail(s[k])
    ensures n == 1 ==> Utf8At(s, p) == (s[p], p + 1)
    ensures n == 2 ==> Utf8At(s, p) == (Lead(s[p]).1 * 0x40 + SixBits(s[p + 1]), p + 2)
    ensures n == 3 ==> Utf8At(s, p) == ((Lead(s[p]).1 * 0x40 + SixBits(s[p + 1])) * 0x40 + SixBits(s[p + 2]), p + 3)
    ensures n == 4 ==>
              Utf8At(s, p) ==
              (((Lead(s[p]).1 * 0x40 + SixBits(s[p + 1])) * 0x40 + SixBits(s[p + 2])) * 0x40 + SixBits(s[p + 3]), p + 4)
  {
    hide Continued;
    var lead := Lead(s[p]).1;
    if n >= 2 {
      var scalar1 := lead * 0x40 + SixBits(s[p + 1]);
      ContinuedStep(s, p + 1, n - 1, lead);
      if n >= 3 {
        var scalar2 := scalar1 * 0x40 + SixBits(s[p + 2]);
        ContinuedStep(s, p + 2, n - 2, scalar1);
        if n == 4 {
          ContinuedStep(s, p + 3, 1, scalar2);
        }
      }
    }
  }

  lemma {:induction false} ContinuedStops(s: seq<Byte>, p: nat, extra: nat, scalar: nat, j: nat)
    requires j < extra && p + j <= |s| && (p + j == |s| || !Tail(s[p + j]))
    requires forall k :: p <= k < p + j ==> Tail(s[k])
    ensures Continued(s, p, extra, scalar) == (0xfffd, p + j)
    decreases j
  {
    if 0 < j {
      ContinuedStops(s, p + 1, extra - 1, scalar * 0x40 + s[p] % 0x40, j - 1);
    }
  }

  /**
   A byte that begins no sequence is U+FFFD on its own. A sequence that breaks off is U+FFFD up
   to where the next tail byte is missing, so that what stands there is read on its own.
   */
  lemma IncompleteEnds(s: seq<Byte>, p: nat, j: nat)
    requires p + j < |s| && 0x80 <= s[p] && (forall k :: p < k <= p + j ==> Tail(s[k]))
    requires if s[p] < 0xc0 || 0xf8 <= s[p] then j == 0
             else j + 1 < Lead(s[p]).0 && (p + j + 1 == |s| || !Tail(s[p + j + 1]))
    ensures Utf8At(s, p) == (0xfffd, p + j + 1)
  {
    hide Continued;
    var b: int := s[p];
    if 0xc0 <= b < 0xe0 {
      ContinuedStops(s, p + 1, 1, b % 0x20, j);
    } else if 0xe0 <= b < 0xf0 {
      ContinuedStops(s, p + 1, 2, b % 0x10, j);
    } else if 0xf0 <= b < 0xf8 {
      ContinuedStops(s, p + 1, 3, b % 0x08, j);
    }
  }

  /** The digits of a number to the base 0x40. */
  lemma Digits(a: nat, b: nat, c: nat, d: nat)
    requires b < 0x40 && c < 0x40 && d < 0x40
    ensures var n := ((a * 0x40 + b) * 0x40 + c) * 0x40 + d;
            n % 0x40 == d && n / 0x40 % 0x40 == c && n / 0x1000 % 0x40 == b && n / 0x4_0000 == a
  {
    var n := ((a * 0x40 + b) * 0x40 + c) * 0x40 + d;
    assert n / 0x40 == (a * 0x40 + b) * 0x40 + c;
    assert n / 0x1000 == a * 0x40 + b;
  }

  lemma DigitsBack(n: nat)
    ensures n == n / 0x40 * 0x40 + n % 0x40
    ensures n == (n / 0x1000 * 0x40 + n / 0x40 % 0x40) * 0x40 + n % 0x40
    ensures n == ((n / 0x4_0000 * 0x40 + n / 0x1000 % 0x40) * 0x40 + n / 0x40 % 0x40) * 0x40 + n % 0x40
  {
    assert n / 0x1000 == n / 0x40 / 0x40;
    assert n / 0x4_0000 == n / 0x1000 / 0x40;
  }

  /** Every scalar is read back from its UTF-8 form, surrogates included, whatever is around it. */
  lemma Utf8RoundTrip(before: seq<Byte>, scalar: nat, rest: seq<Byte>)
    requires scalar < 0x20_0000
    ensures Utf8At(before + EncodeUtf8(scalar) + rest, |before|) == (scalar, |before| + |EncodeUtf8(scalar)|)
  {
    hide Utf8At, Continued;
    var bytes, p := EncodeUtf8(scalar), |before|;
    var s := before + bytes + rest;
    assert forall k :: p <= k < p + |bytes| ==> s[k] == bytes[k - p];
    DigitsBack(scalar);
    CompleteIsRead(s, p, |bytes|);
  }

  /** At the first byte where two forms differ, and they do differ, the smaller number has the smaller one. */
  lemma Utf8KeepsOrder(a: nat, b: nat) returns (k: nat)
    requires a < b < 0x20_0000
    ensures k < |EncodeUtf8(a)| && k < |EncodeUtf8(b)|
    ensures EncodeUtf8(a)[..k] == EncodeUtf8(b)[..k] && EncodeUtf8(a)[k] < EncodeUtf8(b)[k]
  {
    DigitsInOrder(a, b);
    k := if |EncodeUtf8(a)| < |EncodeUtf8(b)| || a < 0x80 then 0
    else if b < 0x800 then (if a / 0x40 < b / 0x40 then 0 else 1)
    else if b < 0x1_0000 then (if a / 0x1000 < b / 0x1000 then 0 else if a / 0x40 < b / 0x40 then 1 else 2)
    else if a / 0x4_0000 < b / 0x4_0000 then 0
    else if a / 0x1000 < b / 0x1000 then 1
    else if a / 0x40 < b / 0x40 then 2
    else 3;
  }

  lemma DigitsInOrder(a: nat, b: nat)
    requires a < b
    ensures a / 0x40 <= b / 0x40 && a / 0x1000 <= b / 0x1000 && a / 0x4_0000 <= b / 0x4_0000
    ensures a / 0x40 == b / 0x40 ==> a % 0x40 < b % 0x40
    ensures a / 0x1000 == b / 0x1000 && a / 0x40 < b / 0x40 ==> a / 0x40 % 0x40 < b / 0x40 % 0x40
    ensures a / 0x4_0000 == b / 0x4_0000 && a / 0x1000 < b / 0x1000 ==> a / 0x1000 % 0x40 < b / 0x1000 % 0x40
  {
    DigitsBack(a);
    DigitsBack(b);
  }

  /** Every code point of UTF-16 text is written back as it was. */
  lemma Utf16RoundTrip(s: seq<Unit>, p: nat)
    requires p < |s|
    ensures var (scalar, q) := DecodeUtf16(s, p); EncodeUtf16(scalar) == s[p..q]
  {
  }

  /**
   The UTF-16 form of a number is read back wherever it stands, where a number beyond the code
   points is U+FFFD; only a lead surrogate is not, and just before a trail surrogate.
   */
  lemma Utf16Form(before: seq<Unit>, scalar: nat, after: seq<Unit>)
    ensures var form, c := EncodeUtf16(scalar), if scalar <= 0x10_ffff then scalar else REPLACEMENT;
            DecodeUtf16(before + form + after, |before|) == (c, |before| + |form|) <==>
            !(0xd800 <= scalar < 0xdc00 && after != [] && IsTrail(after[0]))
  {
    var form := EncodeUtf16(scalar);
    var s := before + form + after;
    assert s[|before|] == form[0] && (|form| == 2 ==> s[|before| + 1] == form[1]);
    assert |form| == 1 && after != [] ==> s[|before| + 1] == after[0];
  }

  /** The bytes at `p` are the shortest form of a code point. */
  ghost predicate Shortest(s: seq<Byte>, p: nat)
    requires p < |s|
  {
    var (scalar, q) := Utf8At(s, p);
    scalar <= 0x10_ffff && s[p..q] == EncodeUtf8(scalar)
  }

  /** A well-formed sequence, section 4 of RFC 3629, is a shortest form of the same code point, and no surrogate. */
  lemma WellFormedIsShortest(s: seq<Byte>, p: nat)
    requires p < |s| && 0 < SequenceLength(s, p)
    ensures Utf8At(s, p) == (SequenceValue(s, p), p + SequenceLength(s, p))
    ensures Shortest(s, p) && !(0xd800 <= SequenceValue(s, p) < 0xe000)
  {
    hide Utf8At, Continued, EncodeUtf8;
    var n := SequenceLength(s, p);
    CompleteIsRead(s, p, n);
    assert Utf8At(s, p).0 == SequenceValue(s, p);
    CompleteIsShortest(s, p, n);
  }

  /** A complete sequence is the shortest form of its number unless a shorter one would do. */
  lemma CompleteIsShortest(s: seq<Byte>, p: nat, n: nat)
    requires p + n <= |s| && 1 <= n && Lead(s[p]).0 == n && (n == 1 ==> s[p] < 0x80)
    requires forall k :: p < k < p + n ==> Tail(s[k])
    requires n == 2 ==> 0xc2 <= s[p]
    requires n == 3 ==> 0xe0 < s[p] || 0xa0 <= s[p + 1]
    requires n == 4 ==> 0xf0 < s[p] || 0x90 <= s[p + 1]
    ensures EncodeUtf8(Utf8At(s, p).0) == s[p..p + n]
  {
    CompleteIsRead(s, p, n);
    hide Utf8At, Continued, EncodeUtf8;
    Slices(s, p, n);
    if n == 1 {
      OneIsShortest(s[p]);
    } else if n == 2 {
      TwoAreShortest(s[p], s[p + 1]);
    } else if n == 3 {
      ThreeAreShortest(s[p], s[p + 1], s[p + 2]);
    } else if n == 4 {
      FourAreShortest(s[p], s[p + 1], s[p + 2], s[p + 3]);
    }
  }

  lemma Slices(s: seq<Byte>, p: nat, n: nat)
    requires p + n <= |s|
    ensures n == 1 ==> s[p..p + n] == [s[p]]
    ensures n == 2 ==> s[p..p + n] == [s[p], s[p + 1]]
    ensures n == 3 ==> s[p..p + n] == [s[p], s[p + 1], s[p + 2]]
    ensures n == 4 ==> s[p..p + n] == [s[p], s[p + 1], s[p + 2], s[p + 3]]
  {
  }

  lemma OneIsShortest(a: Byte)
    requires a < 0x80
    ensures EncodeUtf8(a) == [a]
  {
  }

  lemma TwoAreShortest(a: Byte, b: Byte)
    requires 0xc2 <= a < 0xe0 && Tail(b)
    ensures EncodeUtf8(Lead(a).1 * 0x40 + SixBits(b)) == [a, b]
  {
    Digits(0, 0, Lead(a).1, SixBits(b));
  }

  lemma ThreeAreShortest(a: Byte, b: Byte, c: Byte)
    requires 0xe0 <= a < 0xf0 && Tail(b) && Tail(c) && (0xe0 < a || 0xa0 <= b)
    ensures EncodeUtf8((Lead(a).1 * 0x40 + SixBits(b)) * 0x40 + SixBits(c)) == [a, b, c]
  {
    Digits(0, Lead(a).1, SixBits(b), SixBits(c));
  }

  lemma FourAreShortest(a: Byte, b: Byte, c: Byte, d: Byte)
    requires 0xf0 <= a < 0xf8 && Tail(b) && Tail(c) && Tail(d) && (0xf0 < a || 0x90 <= b)
    ensures EncodeUtf8(((Lead(a).1 * 0x40 + SixBits(b)) * 0x40 + SixBits(c)) * 0x40 + SixBits(d)) == [a, b, c, d]
  {
    Digits(Lead(a).1, SixBits(b), SixBits(c), SixBits(d));
  }

  /** The other way round: the shortest forms that are not surrogates are the well-formed sequences. */
  lemma ShortestIsWellFormed(s: seq<Byte>, p: nat)
    requires p < |s| && Shortest(s, p) && !(0xd800 <= Utf8At(s, p).0 < 0xe000)
    ensures 0 < SequenceLength(s, p)
  {
    hide Utf8At, Continued;
    var (c, q) := Utf8At(s, p);
    var n := q - p;
    assert s[p] == s[p..q][0];
    if 2 <= n {
      assert s[p + 1] == s[p..q][1];
    }
    if 3 <= n {
      assert s[p + 2] == s[p..q][2];
    }
    if 4 <= n {
      assert s[p + 3] == s[p..q][3];
    }
  }

  // ----- spans of UTF-8 text

  /** A number that has a well-formed sequence. */
  predicate IsScalarValue(c: nat) {
    c < 0xd800 || 0xe000 <= c <= 0x10_ffff
  }

  /** The UTF-8 forms of the scalar values from the `k`-th on. */
  ghost function Utf8Text(scalars: seq<nat>, k: nat): seq<Byte>
    requires k <= |scalars| && forall i :: 0 <= i < |scalars| ==> IsScalarValue(scalars[i])
    decreases |scalars| - k
  {
    if k == |scalars| then []
    else
      assert IsScalarValue(scalars[k]);
      EncodeUtf8(scalars[k]) + Utf8Text(scalars, k + 1)
  }

  /** The UTF-8 form of a scalar value is decoded wherever it stands. */
  lemma FormIsDecoded(before: seq<Byte>, scalar: nat, rest: seq<Byte>)
    requires IsScalarValue(scalar)
    ensures Decoded(before + EncodeUtf8(scalar) + rest, |before|) == (scalar, |EncodeUtf8(scalar)|)
  {
    hide Utf8At, SequenceValue, SequenceLength, EncodeUtf8;
    var s := before + EncodeUtf8(scalar) + rest;
    Utf8RoundTrip(before, scalar, rest);
    assert s[|before|..|before| + |EncodeUtf8(scalar)|] == EncodeUtf8(scalar);
    ShortestIsWellFormed(s, |before|);
    WellFormedIsShortest(s, |before|);
  }

  /**
   In the UTF-8 text of a list of scalar values, the naive span ends where the first of them
   begins that does not satisfy the condition.
   */
  lemma {:induction false} SpanOfScalars(before: seq<Byte>, scalars: seq<nat>, k: nat, r: nat, p: int -> bool)
    requires k <= r <= |scalars| && forall i :: 0 <= i < |scalars| ==> IsScalarValue(scalars[i])
    requires (forall i :: k <= i < r ==> p(scalars[i])) && (r < |scalars| ==> !p(scalars[r]))
    ensures var s := before + Utf8Text(scalars, k); NaiveSpan(s, |before|, p) == |s| - |Utf8Text(scalars, r)|
    decreases |scalars| - k
  {
    hide EncodeUtf8, Decoded;
    var s := before + Utf8Text(scalars, k);
    if k < |scalars| {
      assert IsScalarValue(scalars[k]);
      var form, rest := EncodeUtf8(scalars[k]), Utf8Text(scalars, k + 1);
      Associate(before, form, rest);
      FormIsDecoded(before, scalars[k], rest);
      if k < r {
        SpanOfScalars(before + form, scalars, k + 1, r, p);
      }
    }
  }
}
