/** Which UTF-8 input a conversion accepts that refuses invalid characters, `src/CodePage.cpp`. */
module StrictUtf8 {
  import opened Common
  import opened UnicodeText
  import opened Utf
  import opened CodePages

  /** How many bytes the sequence at `p` announces, and has: a lead byte and tail bytes; 0 if some are missing. */
  function CompleteLength(s: seq<Byte>, p: nat): (n: nat)
    requires p < |s|
    ensures p + n <= |s|
  {
    var b := s[p];
    if b < 0x80 then 1
    else if 0xc0 <= b < 0xe0 && p + 1 < |s| && Tail(s[p + 1]) then 2
    else if 0xe0 <= b < 0xf0 && p + 2 < |s| && Tail(s[p + 1]) && Tail(s[p + 2]) then 3
    else if 0xf0 <= b < 0xf8 && p + 3 < |s| && Tail(s[p + 1]) && Tail(s[p + 2]) && Tail(s[p + 3]) then 4
    else 0
  }

  /** The number that the bits of a complete sequence make up. */
  function CompleteValue(s: seq<Byte>, p: nat): nat
    requires p < |s| && 0 < CompleteLength(s, p)
  {
    var n, lead := CompleteLength(s, p), Lead(s[p]).1;
    if n == 1 then s[p]
    else if n == 2 then lead * 0x40 + SixBits(s[p + 1])
    else if n == 3 then (lead * 0x40 + SixBits(s[p + 1])) * 0x40 + SixBits(s[p + 2])
    else ((lead * 0x40 + SixBits(s[p + 1])) * 0x40 + SixBits(s[p + 2])) * 0x40 + SixBits(s[p + 3])
  }

  predicate IsReplacementForm(s: seq<Byte>, p: nat)
    requires p < |s| && 0 < CompleteLength(s, p)
  {
    CompleteLength(s, p) == 3 && s[p] == 0xef && s[p + 1] == 0xbf && s[p + 2] == 0xbd
  }

  /** The bytes from `p` on are complete sequences, and U+FFFD has its own form. */
  predicate AllComplete(s: seq<Byte>, p: nat)
    requires p <= |s|
    decreases |s| - p
  {
    p == |s| || (
      var n := CompleteLength(s, p);
      0 < n && (CompleteValue(s, p) == REPLACEMENT ==> IsReplacementForm(s, p)) && AllComplete(s, p + n))
  }

  /**
   A complete sequence that section 4 of RFC 3629 does not have: too long for its value, a
   surrogate, or too large.
   */
  predicate Forbidden(s: seq<Byte>, p: nat)
    requires p < |s| && 0 < CompleteLength(s, p)
  {
    var n, c := CompleteLength(s, p), CompleteValue(s, p);
    (n == 2 && c < 0x80) || (n == 3 && c < 0x800) || (n == 4 && c < 0x1_0000) ||
    0xd800 <= c < 0xe000 || 0x10_ffff < c
  }

  /** None of the complete sequences from `p` on, up to an incomplete one, is forbidden. */
  predicate NoneForbidden(s: seq<Byte>, p: nat)
    requires p <= |s|
    decreases |s| - p
  {
    p == |s| || CompleteLength(s, p) == 0 || (!Forbidden(s, p) && NoneForbidden(s, p + CompleteLength(s, p)))
  }

  // ----- one sequence

  lemma CompleteIsDecoded(s: seq<Byte>, p: nat)
    requires p < |s| && 0 < CompleteLength(s, p)
    ensures Utf8At(s, p) == (CompleteValue(s, p), p + CompleteLength(s, p))
  {
    hide Utf8At, Continued;
    CompleteIsRead(s, p, CompleteLength(s, p));
  }

  /** What is missing a byte is taken for U+FFFD, and is shorter than its form. */
  lemma IncompleteIsReplaced(s: seq<Byte>, p: nat)
    requires p < |s| && CompleteLength(s, p) == 0
    ensures var (scalar, q) := Utf8At(s, p); scalar == REPLACEMENT && s[p..q] != [0xef, 0xbf, 0xbd]
  {
    var b: int, q := s[p], Utf8At(s, p).1;
    if 0xc0 <= b < 0xe0 {
      OneMissing(s, p + 1, b % 0x20);
    } else if 0xe0 <= b < 0xf0 {
      TwoMissing(s, p + 1, b % 0x10);
    } else if 0xf0 <= b < 0xf8 {
      ThreeMissing(s, p + 1, b % 0x08);
      assert 0 < |s[p..q]| ==> s[p..q][0] == b;
    }
  }

  lemma OneMissing(s: seq<Byte>, p: nat, scalar: nat)
    requires p <= |s| && !(p < |s| && Tail(s[p]))
    ensures forall extra: nat :: 0 < extra ==> Continued(s, p, extra, scalar) == (REPLACEMENT, p)
  {
  }

  lemma TwoMissing(s: seq<Byte>, p: nat, scalar: nat)
    requires p <= |s| && !(p + 1 < |s| && Tail(s[p]) && Tail(s[p + 1]))
    ensures var (c, q) := Continued(s, p, 2, scalar); c == REPLACEMENT && q <= p + 1
  {
    if p < |s| && Tail(s[p]) {
      OneMissing(s, p + 1, scalar * 0x40 + s[p] % 0x40);
    } else {
      OneMissing(s, p, scalar);
    }
  }

  lemma ThreeMissing(s: seq<Byte>, p: nat, scalar: nat)
    requires p <= |s| && !(p + 2 < |s| && Tail(s[p]) && Tail(s[p + 1]) && Tail(s[p + 2]))
    ensures Continued(s, p, 3, scalar).0 == REPLACEMENT
  {
    if p < |s| && Tail(s[p]) {
      TwoMissing(s, p + 1, scalar * 0x40 + s[p] % 0x40);
    }
  }

  /** Exactly what is incomplete, or another form of U+FFFD, is refused. */
  lemma RefusedSequences(s: seq<Byte>, p: nat)
    requires p < |s|
    ensures Malformed(Utf8, s, p) <==>
            CompleteLength(s, p) == 0 || (CompleteValue(s, p) == REPLACEMENT && !IsReplacementForm(s, p))
  {
    hide Utf8At, CompleteValue;
    if CompleteLength(s, p) == 0 {
      IncompleteIsReplaced(s, p);
    } else {
      var n := CompleteLength(s, p);
      CompleteIsDecoded(s, p);
      assert |s[p..p + n]| == n && (n == 3 ==> s[p..p + n] == [s[p], s[p + 1], s[p + 2]]);
    }
  }

  /** The well-formed sequences are the complete ones that are not forbidden. */
  lemma WellFormedSequences(s: seq<Byte>, p: nat)
    requires p < |s|
    ensures 0 < SequenceLength(s, p) <==> 0 < CompleteLength(s, p) && !Forbidden(s, p)
    ensures 0 < SequenceLength(s, p) ==>
              SequenceLength(s, p) == CompleteLength(s, p) &&
              (CompleteValue(s, p) == REPLACEMENT ==> IsReplacementForm(s, p))
  {
  }

  // ----- whole strings

  /** A conversion that refuses invalid characters accepts exactly the strings of complete sequences. */
  lemma {:induction false} StrictAcceptsFrom(s: seq<Byte>, p: nat)
    requires p <= |s|
    ensures ToWide(Utf8, s, p, false, true).complete <==> AllComplete(s, p)
    decreases |s| - p
  {
    hide Utf8At, Malformed, CompleteValue, IsReplacementForm;
    if p < |s| {
      RefusedSequences(s, p);
      if !Malformed(Utf8, s, p) {
        CompleteIsDecoded(s, p);
        StrictAcceptsFrom(s, p + CompleteLength(s, p));
      }
    }
  }

  lemma {:induction false} WellFormedFrom(s: seq<Byte>, p: nat)
    requires p <= |s|
    ensures WellFormedUtf8(s, p) <==> AllComplete(s, p) && NoneForbidden(s, p)
    decreases |s| - p
  {
    hide SequenceLength, CompleteLength, CompleteValue, Forbidden, IsReplacementForm;
    if p < |s| {
      WellFormedSequences(s, p);
      if 0 < CompleteLength(s, p) {
        WellFormedFrom(s, p + CompleteLength(s, p));
      }
    }
  }

  /**
   Refusing invalid characters accepts exactly the complete strings. It agrees with section 4
   of RFC 3629 unless a string is accepted that has a forbidden sequence.
   */
  lemma StrictAccepts(m: seq<Byte>)
    ensures ToWide(Utf8, m, 0, false, true).complete <==> AllComplete(m, 0)
    ensures WellFormedUtf8(m, 0) <==> ToWide(Utf8, m, 0, false, true).complete && NoneForbidden(m, 0)
    ensures (ToWide(Utf8, m, 0, false, true).complete <==> WellFormedUtf8(m, 0)) <==>
            (AllComplete(m, 0) ==> NoneForbidden(m, 0))
  {
    hide AllComplete, NoneForbidden, WellFormedUtf8, ToWide;
    StrictAcceptsFrom(m, 0);
    WellFormedFrom(m, 0);
  }

  /** C0 80 is taken for U+0000, a form of a surrogate for that, and F4 90 80 80 is replaced, all without an error. */
  lemma ForbiddenIsAccepted()
    ensures var overlong: seq<Byte> := [0xc0, 0x80];
            ToWide(Utf8, overlong, 0, false, true) == Conversion([0], true) && !WellFormedUtf8(overlong, 0)
    ensures var surrogate: seq<Byte> := [0xed, 0xa0, 0x80];
            ToWide(Utf8, surrogate, 0, false, true) == Conversion([0xd800], true) && !WellFormedUtf8(surrogate, 0)
    ensures var large: seq<Byte> := [0xf4, 0x90, 0x80, 0x80];
            ToWide(Utf8, large, 0, false, true) == Conversion([0xfffd], true) && !WellFormedUtf8(large, 0)
  {
    hide Utf8At;
    OneSequence([0xc0, 0x80]);
    OneSequence([0xed, 0xa0, 0x80]);
    OneSequence([0xf4, 0x90, 0x80, 0x80]);
  }

  /** A string of one complete sequence. */
  lemma OneSequence(s: seq<Byte>)
    requires 0 < |s| == CompleteLength(s, 0) && CompleteValue(s, 0) != REPLACEMENT
    ensures ToWide(Utf8, s, 0, false, true) == Conversion(EncodeUtf16(CompleteValue(s, 0)), true)
    ensures WellFormedUtf8(s, 0) <==> !Forbidden(s, 0)
  {
    hide Utf8At, Malformed, EncodeUtf16;
    CompleteIsDecoded(s, 0);
    RefusedSequences(s, 0);
    WellFormedSequences(s, 0);
    assert ToWide(Utf8, s, |s|, false, true) == Conversion([], true);
  }
}
