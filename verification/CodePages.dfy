/** What conversions between code pages and UTF-16 produce, `src/CodePage.cpp` and `src/CodePageTable.cpp`. */
module CodePages {
  import opened Common
  import opened UnicodeText
  import opened Utf

  // ----- the windows-1252 table

  /** A single-byte code page: the unit of each byte, and the byte of each unit. */
  datatype Table = Table(toUnicode: seq<Unit>, fromUnicode: map<Unit, Byte>) {

    /** A unit belongs to the first byte that claims it. */
    ghost predicate Valid() {
      |toUnicode| == 0x100 &&
      (forall b: Byte :: toUnicode[b] in fromUnicode) &&
      forall u :: u in fromUnicode ==>
        toUnicode[fromUnicode[u]] == u && forall b: Byte :: b < fromUnicode[u] ==> toUnicode[b] != u
    }

    /** The byte of a scalar, or -1. */
    function FromUnicode(scalar: nat): int {
      if scalar > 0xffff then -1 else if scalar in fromUnicode then fromUnicode[scalar] else -1
    }

    ghost predicate Injective()
      requires Valid()
    {
      forall a: Byte, b: Byte :: toUnicode[a] == toUnicode[b] ==> a == b
    }

    ghost predicate NoSurrogates()
      requires Valid()
    {
      forall b: Byte :: !IsLead(toUnicode[b]) && !IsTrail(toUnicode[b])
    }
  }

  /** Loads a table from its 256 little-endian units. */
  method Load(scalars: seq<Byte>) returns (table: Table)
    requires |scalars| == 0x200
    ensures table.Valid()
    ensures forall b: Byte :: table.toUnicode[b] == scalars[2 * b] as int + scalars[2 * b + 1] as int * 0x100
  {
    var toUnicode: seq<Unit>, fromUnicode: map<Unit, Byte> := [], map[];
    for b := 0 to 0x100
      invariant |toUnicode| == b
      invariant forall k: nat :: k < b ==> toUnicode[k] == scalars[2 * k] as int + scalars[2 * k + 1] as int * 0x100
      invariant forall k: nat :: k < b ==> toUnicode[k] in fromUnicode
      invariant forall u :: u in fromUnicode ==> fromUnicode[u] < b && toUnicode[fromUnicode[u]] == u
      invariant forall u :: u in fromUnicode ==> forall k: nat :: k < fromUnicode[u] ==> toUnicode[k] != u
    {
      var scalar: Unit := scalars[2 * b] as int + scalars[2 * b + 1] as int * 0x100;
      toUnicode := toUnicode + [scalar];
      if scalar !in fromUnicode {
        fromUnicode := fromUnicode[scalar := b];
      }
    }
    table := Table(toUnicode, fromUnicode);
  }

  // ----- conversions

  datatype CodePage = Utf8 | Ansi(table: Table)
  {
    ghost predicate Valid() {
      Ansi? ==> table.Valid()
    }
  }

  /** What is produced, up to the first input that is refused, and whether the end was reached. */
  datatype Conversion<T> = Conversion(output: seq<T>, complete: bool) {
    function After(before: seq<T>): Conversion<T> {
      Conversion(before + output, complete)
    }
  }

  /** The scalar of the byte or sequence at `p`. */
  function WideScalar(cp: CodePage, s: seq<Byte>, p: nat, terminated: bool): (r: (nat, nat))
    requires cp.Valid() && p < |s|
    ensures p < r.1 <= |s|
  {
    if s[p] == 0 && terminated then (0, p + 1)
    else if cp.Utf8? then Utf8At(s, p)
    else (cp.table.toUnicode[s[p]] as nat, p + 1)
  }

  /** A sequence that is refused on demand: it stands for U+FFFD, but is not its UTF-8 form. */
  predicate Malformed(cp: CodePage, s: seq<Byte>, p: nat)
    requires p < |s|
  {
    cp.Utf8? &&
    var (scalar, q) := Utf8At(s, p);
    scalar == REPLACEMENT && s[p..q] != [0xef, 0xbf, 0xbd]
  }

  /** The conversion of bytes from `p` on to UTF-16. */
  ghost function ToWide(cp: CodePage, s: seq<Byte>, p: nat, terminated: bool, strict: bool): Conversion<Unit>
    requires cp.Valid() && p <= |s|
    decreases |s| - p
  {
    if p == |s| then Conversion([], true)
    else if strict && Malformed(cp, s, p) then Conversion([], false)
    else
      var (scalar, q) := WideScalar(cp, s, p, terminated);
      if scalar == 0 && terminated then Conversion(EncodeUtf16(scalar), true)
      else ToWide(cp, s, q, terminated, strict).After(EncodeUtf16(scalar))
  }

  predicate Mappable(cp: CodePage, scalar: nat) {
    cp.Utf8? || cp.table.FromUnicode(scalar) >= 0
  }

  /** The bytes of a scalar; `defaultChar` if it has none. */
  function ScalarBytes(cp: CodePage, scalar: nat, defaultChar: Byte): (r: seq<Byte>)
    requires scalar <= 0x10_ffff
    ensures 1 <= |r| <= 4
  {
    if cp.Utf8? then EncodeUtf8(scalar)
    else [if Mappable(cp, scalar) then cp.table.FromUnicode(scalar) as Byte else defaultChar]
  }

  /** The conversion of UTF-16 from `p` on to bytes. */
  ghost function ToBytes(cp: CodePage, s: seq<Unit>, p: nat, terminated: bool, strict: bool,
                         defaultChar: Byte): Conversion<Byte>
    requires p <= |s|
    decreases |s| - p
  {
    if p == |s| then Conversion([], true)
    else
      var (scalar, q) := DecodeUtf16(s, p);
      if strict && !Mappable(cp, scalar) then Conversion([], false)
      else if scalar == 0 && terminated then Conversion(ScalarBytes(cp, scalar, defaultChar), true)
      else ToBytes(cp, s, q, terminated, strict, defaultChar).After(ScalarBytes(cp, scalar, defaultChar))
  }

  /** Some scalar from `p` on, up to a terminator, has no byte. */
  ghost predicate NeedsDefault(cp: CodePage, s: seq<Unit>, p: nat, terminated: bool)
    requires p <= |s|
    decreases |s| - p
  {
    p < |s| &&
    var (scalar, q) := DecodeUtf16(s, p);
    !Mappable(cp, scalar) || (!(scalar == 0 && terminated) && NeedsDefault(cp, s, q, terminated))
  }

  /** One step of the conversion to UTF-16. */
  lemma ToWideStep(cp: CodePage, s: seq<Byte>, p: nat, terminated: bool, strict: bool)
    requires cp.Valid() && p < |s|
    ensures var (scalar, q) := WideScalar(cp, s, p, terminated);
            ToWide(cp, s, p, terminated, strict) ==
            if strict && Malformed(cp, s, p) then Conversion([], false)
            else if scalar == 0 && terminated then Conversion(EncodeUtf16(scalar), true)
            else ToWide(cp, s, q, terminated, strict).After(EncodeUtf16(scalar))
  {
    hide WideScalar, Malformed, EncodeUtf16;
  }

  /** One step of the conversion to bytes. */
  lemma ToBytesStep(cp: CodePage, s: seq<Unit>, p: nat, terminated: bool, strict: bool, defaultChar: Byte)
    requires p < |s|
    ensures var (scalar, q) := DecodeUtf16(s, p);
            ToBytes(cp, s, p, terminated, strict, defaultChar) ==
            if strict && !Mappable(cp, scalar) then Conversion([], false)
            else if scalar == 0 && terminated then Conversion(ScalarBytes(cp, scalar, defaultChar), true)
            else ToBytes(cp, s, q, terminated, strict, defaultChar).After(ScalarBytes(cp, scalar, defaultChar))
    ensures var (scalar, q) := DecodeUtf16(s, p);
            NeedsDefault(cp, s, p, terminated) ==
            (!Mappable(cp, scalar) || (!(scalar == 0 && terminated) && NeedsDefault(cp, s, q, terminated)))
  {
    hide DecodeUtf16, Mappable, ScalarBytes;
  }

  lemma ConversionEnds(cp: CodePage, s: seq<Byte>, w: seq<Unit>, terminated: bool, strict: bool, defaultChar: Byte)
    requires cp.Valid()
    ensures ToWide(cp, s, |s|, terminated, strict) == Conversion([], true)
    ensures ToBytes(cp, w, |w|, terminated, strict, defaultChar) == Conversion([], true)
    ensures !NeedsDefault(cp, w, |w|, terminated)
  {
  }

  datatype LastError = InvalidParameter | InsufficientBuffer | NoUnicodeTranslation

  /** The returned count and error: with a capacity of 0, only the size is asked for. */
  function Outcome<T>(c: Conversion<T>, capacity: int): (r: (nat, Option<LastError>)) {
    if 0 < capacity < |c.output| then (0, Some(InsufficientBuffer))
    else if !c.complete then (0, Some(NoUnicodeTranslation))
    else (|c.output|, None)
  }

  /**
   A successful sizing query tells the size: any capacity from there on gives the same count,
   and any smaller one fails for lack of room.
   */
  lemma SizingContract<T>(c: Conversion<T>, capacity: int)
    ensures var n := Outcome(c, 0).0;
            0 < n ==> (n <= capacity ==> Outcome(c, capacity) == (n, None)) &&
                      (0 < capacity < n ==> Outcome(c, capacity) == (0, Some(InsufficientBuffer)))
    ensures Outcome(c, capacity).1 == None && 0 < capacity ==> Outcome(c, capacity).0 == |c.output| <= capacity
  {
  }

  // ----- sizes

  lemma {:induction false} WideSize(cp: CodePage, s: seq<Byte>, p: nat, terminated: bool, strict: bool)
    requires cp.Valid() && p <= |s|
    ensures |ToWide(cp, s, p, terminated, strict).output| <= |s| - p
    decreases |s| - p
  {
    if p < |s| && !(strict && Malformed(cp, s, p)) {
      var (scalar, q) := WideScalar(cp, s, p, terminated);
      TwoUnitsFourBytes(cp, s, p, terminated);
      WideSize(cp, s, q, terminated, strict);
    }
  }

  /** Two units are written for four bytes. */
  lemma TwoUnitsFourBytes(cp: CodePage, s: seq<Byte>, p: nat, terminated: bool)
    requires cp.Valid() && p < |s|
    ensures var (scalar, q) := WideScalar(cp, s, p, terminated); |EncodeUtf16(scalar)| <= q - p
  {
    if s[p] >= 0xe0 && p + 1 < |s| && Tail(s[p + 1]) {
      var b: int := s[p];
      assert b < 0xf0 ==> Continued(s, p + 1, 2, b % 0x10) == Continued(s, p + 2, 1, b % 0x10 * 0x40 + s[p + 1] % 0x40);
    }
  }

  lemma {:induction false} BytesSize(cp: CodePage, s: seq<Unit>, p: nat, terminated: bool, strict: bool,
                                     defaultChar: Byte)
    requires p <= |s|
    ensures |ToBytes(cp, s, p, terminated, strict, defaultChar).output| <= 3 * (|s| - p)
    decreases |s| - p
  {
    if p < |s| {
      BytesSize(cp, s, DecodeUtf16(s, p).1, terminated, strict, defaultChar);
    }
  }

  // ----- what is written for a scalar

  /** A scalar is mappable if and only if some byte stands for it, and is written as the lowest such byte. */
  lemma WrittenAsItsByte(table: Table, scalar: nat, defaultChar: Byte)
    requires table.Valid() && scalar <= 0x10_ffff
    ensures Mappable(Ansi(table), scalar) <==> exists b: Byte :: table.toUnicode[b] == scalar
    ensures var r := ScalarBytes(Ansi(table), scalar, defaultChar);
            |r| == 1 &&
            if Mappable(Ansi(table), scalar) then
              table.toUnicode[r[0]] == scalar && forall b: Byte :: b < r[0] ==> table.toUnicode[b] != scalar
            else r[0] == defaultChar
  {
    if b: Byte :| table.toUnicode[b] == scalar {
      assert table.toUnicode[b] in table.fromUnicode;
    }
  }

  /**
   The default byte is used exactly if the same call would be refused on demand; if it is not
   used, then it does not matter, nor does the demand.
   */
  lemma {:induction false} DefaultOrRefused(cp: CodePage, s: seq<Unit>, p: nat, terminated: bool, a: Byte, b: Byte)
    requires p <= |s|
    ensures ToBytes(cp, s, p, terminated, false, a).complete
    ensures ToBytes(cp, s, p, terminated, true, a).complete <==> !NeedsDefault(cp, s, p, terminated)
    ensures !NeedsDefault(cp, s, p, terminated) ==>
              ToBytes(cp, s, p, terminated, true, a) == ToBytes(cp, s, p, terminated, false, b)
    decreases |s| - p
  {
    hide DecodeUtf16, Mappable, ToBytes, NeedsDefault;
    ConversionEndsFor(cp, s, terminated, a, b);
    if p < |s| {
      var (scalar, q) := DecodeUtf16(s, p);
      ToBytesStep(cp, s, p, terminated, false, a);
      ToBytesStep(cp, s, p, terminated, false, b);
      ToBytesStep(cp, s, p, terminated, true, a);
      DefaultOrRefused(cp, s, q, terminated, a, b);
    }
  }

  lemma ConversionEndsFor(cp: CodePage, s: seq<Unit>, terminated: bool, a: Byte, b: Byte)
    ensures ToBytes(cp, s, |s|, terminated, false, a) == ToBytes(cp, s, |s|, terminated, false, b) ==
            ToBytes(cp, s, |s|, terminated, true, a) == Conversion([], true)
    ensures !NeedsDefault(cp, s, |s|, terminated)
  {
  }

  // ----- round trips

  lemma ReplacementBytes()
    ensures EncodeUtf8(REPLACEMENT) == [0xef, 0xbf, 0xbd]
  {
  }

  /**
   UTF-16 to UTF-8 and back is the identity, unpaired surrogates included, and nothing in
   between is malformed.
   */
  lemma {:induction false} WideRoundTripFrom(before: seq<Byte>, w: seq<Unit>, p: nat, strict: bool, strictBack: bool)
    requires p <= |w|
    ensures var m := ToBytes(Utf8, w, p, false, strict, 0);
            m.complete && ToWide(Utf8, before + m.output, |before|, false, strictBack) == Conversion(w[p..], true)
    decreases |w| - p
  {
    hide Utf8At, DecodeUtf16, EncodeUtf16, EncodeUtf8, CodePointAt, ToWide, ToBytes;
    ReplacementBytes();
    ConversionEnds(Utf8, before, w, false, strictBack, 0);
    ConversionEnds(Utf8, before, w, false, strict, 0);
    if p == |w| {
      assert before + [] == before;
    } else {
      var (scalar, q) := DecodeUtf16(w, p);
      var bytes, rest := EncodeUtf8(scalar), ToBytes(Utf8, w, q, false, strict, 0).output;
      WideRoundTripFrom(before + bytes, w, q, strict, strictBack);
      Utf8RoundTrip(before, scalar, rest);
      Utf16RoundTrip(w, p);
      var s := before + (bytes + rest);
      assert s == before + bytes + rest;
      assert s[|before|..|before| + |bytes|] == bytes;
      assert w[p..] == w[p..q] + w[q..];
      ToBytesStep(Utf8, w, p, false, strict, 0);
      ToWideStep(Utf8, s, |before|, false, strictBack);
    }
  }

  lemma WideRoundTrip(w: seq<Unit>, strict: bool, strictBack: bool)
    ensures var m := ToBytes(Utf8, w, 0, false, strict, 0);
            m.complete && ToWide(Utf8, m.output, 0, false, strictBack) == Conversion(w, true)
  {
    WideRoundTripFrom([], w, 0, strict, strictBack);
    assert [] + ToBytes(Utf8, w, 0, false, strict, 0).output == ToBytes(Utf8, w, 0, false, strict, 0).output;
    assert w[0..] == w;
  }

  /**
   The bytes from `p` on are shortest forms of code points, and no form of a lead surrogate
   is followed by one of a trail surrogate.
   */
  ghost predicate Generalized(s: seq<Byte>, p: nat)
    requires p <= |s|
    decreases |s| - p
  {
    p == |s| || (
      Shortest(s, p) &&
      var (scalar, q) := Utf8At(s, p);
      Generalized(s, q) && !(q < |s| && IsLeadScalar(scalar) && IsTrailScalar(Utf8At(s, q).0)))
  }

  predicate IsLeadScalar(scalar: nat) {
    0xd800 <= scalar < 0xdc00
  }

  predicate IsTrailScalar(scalar: nat) {
    0xdc00 <= scalar < 0xe000
  }

  /** The bytes from `p` on are well-formed, section 4 of RFC 3629. */
  ghost predicate WellFormedUtf8(s: seq<Byte>, p: nat)
    requires p <= |s|
    decreases |s| - p
  {
    p == |s| || (0 < SequenceLength(s, p) && WellFormedUtf8(s, p + SequenceLength(s, p)))
  }

  lemma {:induction false} WellFormedIsGeneralized(s: seq<Byte>, p: nat)
    requires p <= |s| && WellFormedUtf8(s, p)
    ensures Generalized(s, p)
    decreases |s| - p
  {
    if p < |s| {
      WellFormedIsShortest(s, p);
      WellFormedIsGeneralized(s, p + SequenceLength(s, p));
    }
  }

  /** The first unit of a conversion to UTF-16. */
  lemma FirstUnit(s: seq<Byte>, p: nat)
    requires p < |s| && Utf8At(s, p).0 <= 0x10_ffff
    ensures var w := ToWide(Utf8, s, p, false, false).output;
            w != [] && (IsTrail(w[0]) <==> IsTrailScalar(Utf8At(s, p).0))
  {
    hide Utf8At;
  }

  /** Forms as above are converted to UTF-16 and back unchanged. */
  lemma {:induction false} BytesRoundTripFrom(s: seq<Byte>, p: nat, before: seq<Unit>)
    requires p <= |s| && Generalized(s, p)
    ensures var w := ToWide(Utf8, s, p, false, false).output;
            ToBytes(Utf8, before + w, |before|, false, false, 0) == Conversion(s[p..], true)
    decreases |s| - p
  {
    hide Utf8At, DecodeUtf16, EncodeUtf8, EncodeUtf16, ToWide, ToBytes;
    if p == |s| {
      NothingLeft(s, before);
    } else {
      var (scalar, q) := Utf8At(s, p);
      var units, rest := EncodeUtf16(scalar), ToWide(Utf8, s, q, false, false).output;
      var w := before + (units + rest);
      assert w == before + units + rest && w[|before|..|before| + |units|] == units;
      BytesRoundTripFrom(s, q, before + units);
      if q < |s| {
        FirstUnit(s, q);
        assert |units| == 1 ==> w[|before| + 1] == rest[0];
      } else {
        NothingLeft(s, before);
      }
      Decode16(w, |before|, scalar);
      StepOfEach(s, p, w, |before|);
      assert s[p..] == s[p..q] + s[q..];
    }
  }

  lemma NothingLeft(s: seq<Byte>, before: seq<Unit>)
    ensures ToWide(Utf8, s, |s|, false, false).output == [] &&
            ToBytes(Utf8, before + [], |before|, false, false, 0) == Conversion([], true)
  {
    assert before + [] == before;
  }

  /** One step of either conversion. */
  lemma StepOfEach(s: seq<Byte>, p: nat, w: seq<Unit>, i: nat)
    requires p < |s| && i < |w|
    ensures ToWide(Utf8, s, p, false, false) ==
            ToWide(Utf8, s, Utf8At(s, p).1, false, false).After(EncodeUtf16(Utf8At(s, p).0))
    ensures ToBytes(Utf8, w, i, false, false, 0) ==
            ToBytes(Utf8, w, DecodeUtf16(w, i).1, false, false, 0).After(EncodeUtf8(DecodeUtf16(w, i).0))
  {
    hide Utf8At, DecodeUtf16, EncodeUtf8, EncodeUtf16;
  }

  lemma Decode16(w: seq<Unit>, p: nat, scalar: nat)
    requires p + |EncodeUtf16(scalar)| <= |w| && w[p..p + |EncodeUtf16(scalar)|] == EncodeUtf16(scalar) &&
             scalar <= 0x10_ffff
    requires IsLeadScalar(scalar) && p + 1 < |w| ==> !IsTrail(w[p + 1])
    ensures DecodeUtf16(w, p) == (scalar, p + |EncodeUtf16(scalar)|)
  {
    var units := w[p..p + |EncodeUtf16(scalar)|];
    assert w[p] == units[0] && (|units| == 2 ==> w[p + 1] == units[1]);
  }

  /** All that is converted from UTF-16 has such forms. */
  lemma {:induction false} ConvertedIsGeneralized(before: seq<Byte>, w: seq<Unit>, p: nat)
    requires p <= |w|
    ensures Generalized(before + ToBytes(Utf8, w, p, false, false, 0).output, |before|)
    decreases |w| - p
  {
    hide Utf8At, EncodeUtf8, ToBytes, Shortest, DecodeUtf16;
    BytesStep(w, p);
    if p < |w| {
      var (scalar, q) := DecodeUtf16(w, p);
      var bytes, rest := EncodeUtf8(scalar), ToBytes(Utf8, w, q, false, false, 0).output;
      ConvertedIsGeneralized(before + bytes, w, q);
      Utf8RoundTrip(before, scalar, rest);
      var s := before + (bytes + rest);
      assert s == before + bytes + rest;
      assert s[|before|..|before| + |bytes|] == bytes;
      IsShortest(s, |before|, scalar, |before| + |bytes|);
      BytesStep(w, q);
      if q < |w| {
        var (next, q2) := DecodeUtf16(w, q);
        var rest2 := ToBytes(Utf8, w, q2, false, false, 0).output;
        Utf8RoundTrip(before + bytes, next, rest2);
        assert s == before + bytes + EncodeUtf8(next) + rest2;
        NoSplitPair(w, p);
      }
    }
  }

  lemma IsShortest(s: seq<Byte>, p: nat, scalar: nat, q: nat)
    requires p < q <= |s| && Utf8At(s, p) == (scalar, q) && scalar <= 0x10_ffff && s[p..q] == EncodeUtf8(scalar)
    ensures Shortest(s, p)
  {
  }

  /** A lead surrogate that is read on its own is not followed by a trail surrogate. */
  lemma NoSplitPair(w: seq<Unit>, p: nat)
    requires p < |w| && DecodeUtf16(w, p).1 < |w|
    ensures var (scalar, q) := DecodeUtf16(w, p); !(IsLeadScalar(scalar) && IsTrailScalar(DecodeUtf16(w, q).0))
  {
  }

  lemma BytesStep(w: seq<Unit>, p: nat)
    requires p <= |w|
    ensures p == |w| ==> ToBytes(Utf8, w, p, false, false, 0) == Conversion([], true)
    ensures p < |w| ==>
              ToBytes(Utf8, w, p, false, false, 0) ==
              ToBytes(Utf8, w, DecodeUtf16(w, p).1, false, false, 0).After(EncodeUtf8(DecodeUtf16(w, p).0))
  {
    hide DecodeUtf16, EncodeUtf8;
  }

  /**
   UTF-8 to UTF-16 and back is the identity exactly on the byte strings that consist of
   shortest forms of code points, where no two forms make up a surrogate pair. All of
   section 4 of RFC 3629 is among them.
   */
  lemma BytesRoundTrip(m: seq<Byte>)
    ensures ToBytes(Utf8, ToWide(Utf8, m, 0, false, false).output, 0, false, false, 0).output == m <==>
            Generalized(m, 0)
    ensures WellFormedUtf8(m, 0) ==> Generalized(m, 0)
    ensures Generalized(m, 0) ==> ToWide(Utf8, m, 0, false, true) == ToWide(Utf8, m, 0, false, false)
  {
    var w := ToWide(Utf8, m, 0, false, false).output;
    if Generalized(m, 0) {
      BytesRoundTripFrom(m, 0, []);
      assert [] + w == w && m[0..] == m;
      WideRoundTrip(w, false, true);
      WideRoundTrip(w, false, false);
    }
    if ToBytes(Utf8, w, 0, false, false, 0).output == m {
      ConvertedIsGeneralized([], w, 0);
      assert [] + m == m;
    }
    if WellFormedUtf8(m, 0) {
      WellFormedIsGeneralized(m, 0);
    }
  }

  /** windows-1252 to UTF-16 and back gives every byte back exactly if the table is injective. */
  lemma {:induction false} AnsiRoundTripFrom(table: Table, m: seq<Byte>, p: nat, before: seq<Unit>, strict: bool,
                                             defaultChar: Byte)
    requires table.Valid() && table.Injective() && table.NoSurrogates() && p <= |m|
    ensures ToBytes(Ansi(table), before + ToWide(Ansi(table), m, p, false, strict).output, |before|, false, strict,
                    defaultChar) ==
            Conversion(m[p..], true)
    decreases |m| - p
  {
    hide DecodeUtf16, ScalarBytes, Mappable, Table.FromUnicode, ToWide, ToBytes;
    var cp := Ansi(table);
    if p == |m| {
      ConversionEnds(cp, m, before + [], false, strict, defaultChar);
      assert before + [] == before;
    } else {
      var u := table.toUnicode[m[p]];
      var rest := ToWide(cp, m, p + 1, false, strict).output;
      AnsiRoundTripFrom(table, m, p + 1, before + [u], strict, defaultChar);
      var w := before + ([u] + rest);
      assert w == before + [u] + rest;
      AnsiUnit(table, w, |before|, m[p], defaultChar);
      assert m[p..] == [m[p]] + m[p + 1..];
      ToWideStep(cp, m, p, false, strict);
      ToBytesStep(cp, w, |before|, false, strict, defaultChar);
    }
  }

  lemma AnsiUnit(table: Table, w: seq<Unit>, i: nat, b: Byte, defaultChar: Byte)
    requires table.Valid() && table.Injective() && table.NoSurrogates() && i < |w| && w[i] == table.toUnicode[b]
    ensures DecodeUtf16(w, i) == (w[i] as nat, i + 1) && Mappable(Ansi(table), w[i])
    ensures ScalarBytes(Ansi(table), w[i], defaultChar) == [b]
  {
    assert table.toUnicode[table.fromUnicode[w[i]]] == w[i];
  }

  lemma AnsiRoundTrip(table: Table, strict: bool, defaultChar: Byte)
    requires table.Valid() && table.NoSurrogates()
    ensures table.Injective() <==>
            forall m :: ToBytes(Ansi(table), ToWide(Ansi(table), m, 0, false, strict).output, 0, false, strict,
                                defaultChar).output == m
  {
    if table.Injective() {
      forall m: seq<Byte>
        ensures ToBytes(Ansi(table), ToWide(Ansi(table), m, 0, false, strict).output, 0, false, strict,
                        defaultChar).output == m
      {
        AnsiRoundTripFrom(table, m, 0, [], strict, defaultChar);
        assert [] + ToWide(Ansi(table), m, 0, false, strict).output == ToWide(Ansi(table), m, 0, false, strict).output;
        assert m[0..] == m;
      }
    } else {
      var a: Byte, b: Byte :| table.toUnicode[a] == table.toUnicode[b] && a != b;
      OneByte(table, a, strict);
      OneByte(table, b, strict);
    }
  }

  lemma OneByte(table: Table, b: Byte, strict: bool)
    requires table.Valid()
    ensures ToWide(Ansi(table), [b], 0, false, strict).output == [table.toUnicode[b]]
  {
    assert ToWide(Ansi(table), [b], 1, false, strict) == Conversion([], true);
  }

  // ----- terminated input

  /** The byte 0 of the code page is U+0000. */
  ghost predicate ZeroIsNul(cp: CodePage)
    requires cp.Valid()
  {
    cp.Ansi? ==> cp.table.toUnicode[0] == 0
  }

  /** Something from `p` on, before the last byte and before what is refused, is taken for U+0000. */
  ghost predicate NulBeforeEnd(cp: CodePage, s: seq<Byte>, p: nat, strict: bool)
    requires cp.Valid() && p <= |s|
    decreases |s| - p
  {
    p < |s| && !(strict && Malformed(cp, s, p)) &&
    var (scalar, q) := WideScalar(cp, s, p, false);
    q < |s| && (scalar == 0 || NulBeforeEnd(cp, s, q, strict))
  }

  /**
   Terminated input is converted like as many bytes without a terminator, exactly if nothing
   before its end, such as C0 80, is taken for a terminator, and its end is U+0000.
   */
  lemma {:induction false} TerminatedIsWhole(cp: CodePage, s: seq<Byte>, p: nat, strict: bool)
    requires cp.Valid() && p < |s| && s[|s| - 1] == 0
    ensures ToWide(cp, s, p, true, strict) == ToWide(cp, s, p, false, strict) <==>
            !NulBeforeEnd(cp, s, p, strict) && ZeroIsNul(cp)
    decreases |s| - p
  {
    hide WideScalar, Malformed, EncodeUtf16, ToWide;
    ToWideStep(cp, s, p, true, strict);
    ToWideStep(cp, s, p, false, strict);
    MalformedIsUtf8(cp, s, p);
    if !(strict && Malformed(cp, s, p)) {
      TerminatorScalar(cp, s, p);
      var (scalar, q) := WideScalar(cp, s, p, false);
      EncodesNul(0);
      EncodesNul(scalar);
      SomethingOrRefused(cp, s, q, strict);
      var rest := ToWide(cp, s, q, false, strict);
      if scalar == 0 {
        NulAfter(rest);
      } else if s[p] == 0 {
        assert (EncodeUtf16(scalar) + rest.output)[0] == EncodeUtf16(scalar)[0] != 0;
      } else {
        TerminatedIsWhole(cp, s, q, strict);
        SameAfter(ToWide(cp, s, q, true, strict), rest, EncodeUtf16(scalar));
      }
    }
  }

  /** A conversion that goes on behind U+0000 differs from one that ends there. */
  lemma NulAfter(rest: Conversion<Unit>)
    ensures rest.After([0]) == Conversion([0], true) <==> rest == Conversion([], true)
  {
    assert |[0] + rest.output| == 1 + |rest.output|;
  }

  lemma MalformedIsUtf8(cp: CodePage, s: seq<Byte>, p: nat)
    requires p < |s|
    ensures Malformed(cp, s, p) ==> cp.Utf8?
  {
  }

  lemma SameAfter<T>(c: Conversion<T>, d: Conversion<T>, first: seq<T>)
    ensures c.After(first) == d.After(first) <==> c == d
  {
    assert (first + c.output)[|first|..] == c.output && (first + d.output)[|first|..] == d.output;
  }

  /** Only the end of terminated input, or what is taken for U+0000, reads differently without a terminator. */
  lemma TerminatorScalar(cp: CodePage, s: seq<Byte>, p: nat)
    requires cp.Valid() && p < |s| && s[|s| - 1] == 0
    ensures s[p] == 0 ==> WideScalar(cp, s, p, true) == (0, p + 1)
    ensures s[p] == 0 ==> WideScalar(cp, s, p, false) == (if cp.Ansi? then cp.table.toUnicode[0] as nat else 0, p + 1)
    ensures s[p] != 0 ==> WideScalar(cp, s, p, true) == WideScalar(cp, s, p, false) &&
                          WideScalar(cp, s, p, false).1 < |s|
  {
    hide Utf8At;
    NulIsNul(s, p);
    if cp.Utf8? && Utf8At(s, p).1 == |s| {
      LastIsNul(s, p);
    }
  }

  /** Only U+0000 is written with a unit 0, and that is all of it. */
  lemma EncodesNul(scalar: nat)
    ensures scalar == 0 ==> EncodeUtf16(scalar) == [0]
    ensures scalar != 0 ==> forall k :: 0 <= k < |EncodeUtf16(scalar)| ==> EncodeUtf16(scalar)[k] != 0
    ensures EncodeUtf16(scalar) == [0] ==> scalar == 0
  {
  }

  /** Some input is left: then something is written, or it is refused. */
  lemma SomethingOrRefused(cp: CodePage, s: seq<Byte>, p: nat, strict: bool)
    requires cp.Valid() && p <= |s|
    ensures p < |s| && ToWide(cp, s, p, false, strict).complete ==> ToWide(cp, s, p, false, strict).output != []
    ensures p == |s| ==> ToWide(cp, s, p, false, strict) == Conversion([], true)
  {
    hide WideScalar, Malformed, EncodeUtf16;
  }

  /** Exactly the last element is 0. */
  ghost predicate ZeroEnds(s: seq<int>) {
    0 < |s| && s[|s| - 1] == 0 && forall k :: 0 <= k < |s| - 1 ==> s[k] != 0
  }

  lemma ZeroEndsAfter(first: seq<int>, rest: seq<int>)
    requires ZeroEnds(rest) && forall k :: 0 <= k < |first| ==> first[k] != 0
    ensures ZeroEnds(first + rest)
  {
  }

  /** What is made of terminated input ends with its only unit 0. */
  lemma {:induction false} TerminatedUnits(cp: CodePage, s: seq<Byte>, p: nat, strict: bool)
    requires cp.Valid() && p < |s| && s[|s| - 1] == 0 && ToWide(cp, s, p, true, strict).complete
    ensures ZeroEnds(ToWide(cp, s, p, true, strict).output)
    decreases |s| - p
  {
    hide WideScalar, Malformed, EncodeUtf16, ToWide;
    ToWideStep(cp, s, p, true, strict);
    TerminatorScalar(cp, s, p);
    var (scalar, q) := WideScalar(cp, s, p, true);
    EncodesNul(scalar);
    if scalar != 0 {
      TerminatedUnits(cp, s, q, strict);
      ZeroEndsAfter(EncodeUtf16(scalar), ToWide(cp, s, q, true, strict).output);
    }
  }

  /** Shortest forms are not taken for U+0000 before a terminator. */
  lemma {:induction false} ShortestHasNoNul(s: seq<Byte>, p: nat, strict: bool)
    requires p < |s| && ZeroEnds(s) && Generalized(s, p)
    ensures !NulBeforeEnd(Utf8, s, p, strict)
    decreases |s| - p
  {
    hide Utf8At, EncodeUtf8, Malformed;
    var (scalar, q) := Utf8At(s, p);
    if q < |s| {
      if scalar == 0 {
        ShortestNul(s, p);
      }
      ShortestHasNoNul(s, q, strict);
    }
  }

  lemma ShortestNul(s: seq<Byte>, p: nat)
    requires p < |s| && Shortest(s, p) && Utf8At(s, p).0 == 0
    ensures s[p] == 0
  {
    hide Utf8At;
    var q := Utf8At(s, p).1;
    assert s[p] == s[p..q][0];
  }

  /** Nor is a single byte, if only the byte 0 is U+0000. */
  lemma {:induction false} AnsiHasNoNul(table: Table, s: seq<Byte>, p: nat, strict: bool)
    requires table.Valid() && p < |s| && ZeroEnds(s) && forall b: Byte :: table.toUnicode[b] == 0 ==> b == 0
    ensures !NulBeforeEnd(Ansi(table), s, p, strict)
    decreases |s| - p
  {
    if p + 1 < |s| {
      AnsiHasNoNul(table, s, p + 1, strict);
    }
  }

  /** Terminated UTF-16 text is converted like as many units without a terminator. */
  lemma {:induction false} TerminatedBytesAreWhole(cp: CodePage, s: seq<Unit>, p: nat, strict: bool, defaultChar: Byte)
    requires p < |s| && ZeroEnds(s)
    ensures ToBytes(cp, s, p, true, strict, defaultChar) == ToBytes(cp, s, p, false, strict, defaultChar)
    ensures NeedsDefault(cp, s, p, true) == NeedsDefault(cp, s, p, false)
    decreases |s| - p
  {
    hide DecodeUtf16, Mappable, ScalarBytes, ToBytes, NeedsDefault;
    ToBytesStep(cp, s, p, true, strict, defaultChar);
    ToBytesStep(cp, s, p, false, strict, defaultChar);
    BytesLeft(cp, s, strict, defaultChar);
    UnitScalar(s, p);
    var (scalar, q) := DecodeUtf16(s, p);
    if q < |s| {
      TerminatedBytesAreWhole(cp, s, q, strict, defaultChar);
    } else {
      assert ScalarBytes(cp, scalar, defaultChar) + [] == ScalarBytes(cp, scalar, defaultChar);
    }
  }

  lemma BytesLeft(cp: CodePage, s: seq<Unit>, strict: bool, defaultChar: Byte)
    ensures ToBytes(cp, s, |s|, false, strict, defaultChar) == Conversion([], true) && !NeedsDefault(cp, s, |s|, false)
  {
  }

  /** Before a unit 0 at the end, no code point is 0, and none takes up the end. */
  lemma UnitScalar(s: seq<Unit>, p: nat)
    requires p < |s| && ZeroEnds(s)
    ensures DecodeUtf16(s, p).0 == 0 <==> p == |s| - 1
    ensures DecodeUtf16(s, p).1 == |s| <==> p == |s| - 1
  {
  }

  /** What is made of terminated UTF-16 text ends with its only byte 0. */
  lemma {:induction false} TerminatedBytes(cp: CodePage, s: seq<Unit>, p: nat, strict: bool, defaultChar: Byte)
    requires cp.Valid() && ZeroIsNul(cp) && defaultChar != 0
    requires p < |s| && ZeroEnds(s) && ToBytes(cp, s, p, true, strict, defaultChar).complete
    ensures ZeroEnds(ToBytes(cp, s, p, true, strict, defaultChar).output)
    decreases |s| - p
  {
    hide DecodeUtf16, Mappable, ScalarBytes, ToBytes, NeedsDefault, ZeroIsNul;
    ToBytesStep(cp, s, p, true, strict, defaultChar);
    UnitScalar(s, p);
    var (scalar, q) := DecodeUtf16(s, p);
    NulBytes(cp, scalar, defaultChar);
    if scalar != 0 {
      TerminatedBytes(cp, s, q, strict, defaultChar);
      ZeroEndsAfter(ScalarBytes(cp, scalar, defaultChar), ToBytes(cp, s, q, true, strict, defaultChar).output);
    }
  }

  lemma SomethingWritten(cp: CodePage, s: seq<Unit>, p: nat, strict: bool, defaultChar: Byte)
    requires p < |s| && ToBytes(cp, s, p, true, strict, defaultChar).complete
    ensures ToBytes(cp, s, p, true, strict, defaultChar).output != []
  {
    hide DecodeUtf16, Mappable, ScalarBytes;
  }

  lemma NulBytes(cp: CodePage, scalar: nat, defaultChar: Byte)
    requires cp.Valid() && ZeroIsNul(cp) && defaultChar != 0 && scalar <= 0x10_ffff
    ensures scalar == 0 ==> ScalarBytes(cp, scalar, defaultChar) == [0]
    ensures scalar != 0 ==> forall k :: 0 <= k < |ScalarBytes(cp, scalar, defaultChar)| ==>
                                          ScalarBytes(cp, scalar, defaultChar)[k] != 0
  {
    if cp.Ansi? {
      assert cp.table.toUnicode[0] in cp.table.fromUnicode;
    }
  }

  lemma NulIsNul(s: seq<Byte>, p: nat)
    requires p < |s|
    ensures s[p] == 0 ==> Utf8At(s, p) == (0, p + 1)
  {
  }

  /** A sequence that ends at a terminator is the terminator. */
  lemma LastIsNul(s: seq<Byte>, p: nat)
    requires p < |s| && s[|s| - 1] == 0 && Utf8At(s, p).1 == |s|
    ensures p == |s| - 1
  {
    if p < |s| - 1 {
      ContinuedBeforeNul(s, p + 1, 1, s[p] as int % 0x20);
      ContinuedBeforeNul(s, p + 1, 2, s[p] as int % 0x10);
      ContinuedBeforeNul(s, p + 1, 3, s[p] as int % 0x08);
    }
  }

  lemma {:induction false} ContinuedBeforeNul(s: seq<Byte>, p: nat, extra: nat, scalar: nat)
    requires p < |s| && s[|s| - 1] == 0
    ensures Continued(s, p, extra, scalar).1 < |s|
    decreases extra
  {
    if extra > 0 && Tail(s[p]) {
      ContinuedBeforeNul(s, p + 1, extra - 1, scalar * 0x40 + s[p] % 0x40);
    }
  }
}
