/**
 Code points in UTF-16 and UTF-8 text. These are the plain definitions that the spans of
 `BMPSet` are proved against: unpaired surrogates are code points of their own, and each byte
 of an ill-formed UTF-8 sequence stands for itself.
 */
module UnicodeText {
  import opened Common

  // ----- UTF-16

  predicate IsLead(u: Unit) {
    0xd800 <= u < 0xdc00
  }

  predicate IsTrail(u: Unit) {
    0xdc00 <= u < 0xe000
  }

  /** The code point of a surrogate pair, section 2.2 of RFC 2781. */
  function Supplementary(lead: Unit, trail: Unit): int {
    0x1_0000 + (lead - 0xd800) * 0x400 + (trail - 0xdc00)
  }

  /**
   The pairs in lexicographic order are the code points from U+10000 to U+10FFFF in their order:
   each pair is followed by the one of the next code point.
   */
  lemma PairsInOrder(lead: Unit, trail: Unit)
    requires IsLead(lead) && IsTrail(trail)
    ensures Supplementary(0xd800, 0xdc00) == 0x1_0000 && Supplementary(0xdbff, 0xdfff) == 0x10_ffff
    ensures trail < 0xdfff ==> Supplementary(lead, trail + 1) == Supplementary(lead, trail) + 1
    ensures trail == 0xdfff && lead < 0xdbff ==> Supplementary(lead + 1, 0xdc00) == Supplementary(lead, trail) + 1
  {
  }

  /** Each code point beyond U+FFFF is that of exactly one pair. */
  lemma PairOfCodePoint(c: int) returns (lead: Unit, trail: Unit)
    requires 0x1_0000 <= c <= 0x10_ffff
    ensures IsLead(lead) && IsTrail(trail) && Supplementary(lead, trail) == c
    ensures forall a: Unit, b: Unit :: IsLead(a) && IsTrail(b) && Supplementary(a, b) == c ==> a == lead && b == trail
  {
    lead, trail := 0xd800 + (c - 0x1_0000) / 0x400, 0xdc00 + (c - 0x1_0000) % 0x400;
  }

  /** A surrogate pair begins at `i`. */
  predicate PairAt(s: seq<Unit>, i: nat) {
    i + 1 < |s| && IsLead(s[i]) && IsTrail(s[i + 1])
  }

  ghost function CodePointAt(s: seq<Unit>, i: nat): int
    requires i < |s|
  {
    if PairAt(s, i) then Supplementary(s[i], s[i + 1]) else s[i]
  }

  /** Position `i` is not inside a surrogate pair. */
  ghost predicate Boundary(s: seq<Unit>, i: nat) {
    i <= |s| && !(0 < i && PairAt(s, i - 1))
  }

  /** Segmentation going forward, and going backward. */
  ghost function After(s: seq<Unit>, i: nat): nat
    requires i < |s|
  {
    if PairAt(s, i) then i + 2 else i + 1
  }

  ghost function Before(s: seq<Unit>, i: nat): nat
    requires 0 < i <= |s|
  {
    if 2 <= i && PairAt(s, i - 2) then i - 2 else i - 1
  }

  /**
   Forward and backward segmentation coincide: both go from one boundary to the next one, so
   they visit the same positions.
   */
  lemma SegmentationsCoincide(s: seq<Unit>, i: nat)
    requires Boundary(s, i)
    ensures i < |s| ==> Boundary(s, After(s, i)) && Before(s, After(s, i)) == i
    ensures 0 < i ==> Boundary(s, Before(s, i)) && After(s, Before(s, i)) == i
    ensures i < |s| ==> forall j: nat :: i < j < After(s, i) ==> !Boundary(s, j)
    ensures Boundary(s, 0) && Boundary(s, |s|)
  {
  }

  /** The code point before a boundary, and the boundary before it. */
  lemma StepBack(s: seq<Unit>, i: nat)
    requires 0 < i && Boundary(s, i)
    ensures i <= |s| && Boundary(s, Before(s, i)) && forall j: nat :: Before(s, i) < j < i ==> !Boundary(s, j)
    ensures var c := s[i - 1];
            if 2 <= i && IsTrail(c) && IsLead(s[i - 2]) then
              Before(s, i) == i - 2 && CodePointAt(s, i - 2) == Supplementary(s[i - 2], c)
            else Before(s, i) == i - 1 && CodePointAt(s, i - 1) == c
  {
  }

  /** `r` ends the longest prefix whose code points all satisfy the condition. */
  ghost predicate IsSpan(s: seq<Unit>, r: nat, p: int -> bool) {
    Boundary(s, r) &&
    (forall i: nat :: i < r && Boundary(s, i) ==> p(CodePointAt(s, i))) &&
    (r < |s| ==> !p(CodePointAt(s, r)))
  }

  /** `r` begins the longest suffix whose code points all satisfy the condition. */
  ghost predicate IsSpanBack(s: seq<Unit>, r: nat, p: int -> bool) {
    Boundary(s, r) &&
    (forall i: nat :: r <= i < |s| && Boundary(s, i) ==> p(CodePointAt(s, i))) &&
    (0 < r ==> !p(CodePointAt(s, Before(s, r))))
  }

  /** There is only one longest prefix and one longest suffix. */
  lemma SpansUnique(s: seq<Unit>, q: nat, r: nat, p: int -> bool)
    ensures IsSpan(s, q, p) && IsSpan(s, r, p) ==> q == r
    ensures IsSpanBack(s, q, p) && IsSpanBack(s, r, p) ==> q == r
  {
    if Boundary(s, q) && Boundary(s, r) {
      SegmentationsCoincide(s, q);
      SegmentationsCoincide(s, r);
    }
  }

  // ----- UTF-8

  predicate Tail(b: Byte) {
    0x80 <= b <= 0xbf
  }

  /** The length of the well-formed sequence at `i`, section 4 of RFC 3629, or 0. */
  ghost function SequenceLength(s: seq<Byte>, i: nat): nat
    requires i < |s|
  {
    var b := s[i];
    if b < 0x80 then 1
    else if 0xc2 <= b <= 0xdf && i + 1 < |s| && Tail(s[i + 1]) then 2
    else if 0xe0 <= b <= 0xef && i + 2 < |s| && Tail(s[i + 1]) && Tail(s[i + 2]) &&
            (b == 0xe0 ==> 0xa0 <= s[i + 1]) && (b == 0xed ==> s[i + 1] <= 0x9f) then 3
    else if 0xf0 <= b <= 0xf4 && i + 3 < |s| && Tail(s[i + 1]) && Tail(s[i + 2]) && Tail(s[i + 3]) &&
            (b == 0xf0 ==> 0x90 <= s[i + 1]) && (b == 0xf4 ==> s[i + 1] <= 0x8f) then 4
    else 0
  }

  /** The code point of the well-formed sequence at `i`. */
  ghost function SequenceValue(s: seq<Byte>, i: nat): int
    requires i < |s| && 0 < SequenceLength(s, i)
  {
    var b: int, n := s[i], SequenceLength(s, i);
    if n == 1 then b
    else if n == 2 then (b - 0xc0) * 0x40 + SixBits(s[i + 1])
    else if n == 3 then (b - 0xe0) * 0x1000 + SixBits(s[i + 1]) * 0x40 + SixBits(s[i + 2])
    else (b - 0xf0) * 0x4_0000 + SixBits(s[i + 1]) * 0x1000 + SixBits(s[i + 2]) * 0x40 + SixBits(s[i + 3])
  }

  /** The six low bits of a tail byte. */
  function SixBits(b: Byte): int {
    b - 0x80
  }

  /** What the bytes at `i` stand for, and how many they are: an ill-formed byte stands for U+FFFD. */
  ghost function Decoded(s: seq<Byte>, i: nat): (int, nat)
    requires i < |s|
  {
    var n := SequenceLength(s, i);
    if n == 0 then (0xfffd, 1) else (SequenceValue(s, i), n)
  }

  /** The end of the longest run of decoded code points from `i` on that satisfy the condition. */
  ghost function NaiveSpan(s: seq<Byte>, i: nat, p: int -> bool): nat
    requires i <= |s|
    decreases |s| - i
  {
    if i == |s| then i
    else
      var (c, n) := Decoded(s, i);
      if p(c) then NaiveSpan(s, i + n, p) else i
  }

  /** Bytes that are part of no well-formed sequence count as U+FFFD each. */
  lemma {:induction false} IllFormedRun(s: seq<Byte>, i: nat, n: nat, p: int -> bool)
    requires 0 < n && i + n <= |s| && forall k :: i <= k < i + n ==> SequenceLength(s, k) == 0
    ensures NaiveSpan(s, i, p) == if p(0xfffd) then NaiveSpan(s, i + n, p) else i
    decreases n
  {
    if n > 1 {
      IllFormedRun(s, i + 1, n - 1, p);
    }
  }

  /**
   The text up to `limit` can be decoded without looking beyond its end: either a truncated
   sequence begins at `limit`, or the text does not end in a truncated sequence.
   */
  ghost predicate Trimmed(s: seq<Byte>, limit: nat) {
    limit <= |s| &&
    if limit < |s| then 0xc0 <= s[limit]
    else
      0 < |s| && s[|s| - 1] < 0xc0 &&
      (2 <= |s| && Tail(s[|s| - 1]) ==> s[|s| - 2] < 0xe0) &&
      (3 <= |s| && Tail(s[|s| - 1]) && Tail(s[|s| - 2]) ==> s[|s| - 3] < 0xf0)
  }

  /** No sequence that begins before `limit` extends beyond it, or beyond the end of the text. */
  lemma TrimmedReads(s: seq<Byte>, limit: nat, i: nat)
    requires Trimmed(s, limit) && i < limit && 0xc0 <= s[i]
    ensures i + 1 < |s|
    ensures Tail(s[i + 1]) ==> i + 2 <= limit
    ensures 0xe0 <= s[i] && Tail(s[i + 1]) ==> i + 2 < |s|
    ensures 0xe0 <= s[i] && Tail(s[i + 1]) && Tail(s[i + 2]) ==> i + 3 <= limit
    ensures 0xf0 <= s[i] && Tail(s[i + 1]) && Tail(s[i + 2]) ==> i + 3 < |s|
    ensures 0xf0 <= s[i] && Tail(s[i + 1]) && Tail(s[i + 2]) && Tail(s[i + 3]) ==> i + 4 <= limit
  {
  }
}
