/** The conversions themselves, `src/CodePage.cpp`. */
module CodePageConversion {
  import opened Common
  import opened UnicodeText
  import opened Utf
  import opened CodePages

  const CP_ACP := 0
  const CP_THREAD_ACP := 3
  const CP_WINDOWS_1252 := 1252
  const CP_UTF8 := 65001

  predicate IsAnsiCodePage(codePage: int) {
    codePage == CP_ACP || codePage == CP_THREAD_ACP || codePage == CP_WINDOWS_1252
  }

  /** The code page of a number; none if it is not supported or its table is not available. */
  function SupportedCodePage(codePage: int, table: Option<Table>): Option<CodePage> {
    if IsAnsiCodePage(codePage) then (if table.Some? then Some(Ansi(table.value)) else None)
    else if codePage == CP_UTF8 then Some(Utf8)
    else None
  }

  /**
   The number of elements of the input: explicit, or up to and including a terminator; none if
   the count is not valid.
   */
  ghost function InputCount(s: seq<int>, count: int): Option<nat>
    requires count == -1 ==> 0 in s
  {
    if count == -1 then Some(Terminator(s, 0) + 1) else if count < 0 then None else Some(count)
  }

  ghost function Terminator(s: seq<int>, i: nat): (r: nat)
    requires i <= |s| && 0 in s[i..]
    ensures i <= r < |s| && s[r] == 0 && forall k :: i <= k < r ==> s[k] != 0
    decreases |s| - i
  {
    if s[i] == 0 then i else Terminator(s, i + 1)
  }

  /** The first element that is 0. */
  ghost predicate FirstZero(s: seq<int>, t: nat) {
    t < |s| && s[t] == 0 && forall k :: 0 <= k < t ==> s[k] != 0
  }

  /** Terminated input is all up to its first element 0, including that. */
  lemma TerminatorCounts(s: seq<int>, t: nat)
    requires FirstZero(s, t)
    ensures InputCount(s, -1) == Some(t + 1) && ZeroEnds(s[..t + 1])
  {
    assert s[0..] == s;
  }

  /** What a call converts; none if its parameters are not valid. */
  ghost function WideConversion(codePage: int, table: Option<Table>, str: Option<seq<Byte>>, count: int,
                                strict: bool): Option<Conversion<Unit>>
    requires table.Some? ==> table.value.Valid()
    requires str.Some? ==> count <= |str.value| && (count == -1 ==> 0 in str.value)
  {
    if str == None || InputCount(str.value, count) == None then None
    else
      match SupportedCodePage(codePage, table)
      case None => None
      case Some(cp) => Some(ToWide(cp, str.value[..InputCount(str.value, count).value], 0, count == -1, strict))
  }

  ghost function BytesConversion(codePage: int, table: Option<Table>, str: Option<seq<Unit>>, count: int, strict: bool,
                                 defaultChar: Byte): Option<Conversion<Byte>>
    requires table.Some? ==> table.value.Valid()
    requires str.Some? ==> count <= |str.value| && (count == -1 ==> 0 in str.value)
  {
    if str == None || InputCount(str.value, count) == None then None
    else
      match SupportedCodePage(codePage, table)
      case None => None
      case Some(cp) => Some(ToBytes(cp, str.value[..InputCount(str.value, count).value], 0, count == -1, strict,
                                    defaultChar))
  }

  /**
   Without a count, bytes are converted like as many as there are up to the terminator, exactly
   if nothing before it is taken for U+0000; the result ends with its only unit 0.
   */
  lemma WideUpToTerminator(codePage: int, table: Option<Table>, s: seq<Byte>, t: nat, strict: bool)
    requires table.Some? ==> table.value.Valid()
    requires FirstZero(s, t)
    ensures var c := WideConversion(codePage, table, Some(s), -1, strict);
            var cp := SupportedCodePage(codePage, table);
            (c == WideConversion(codePage, table, Some(s), t + 1, strict) <==>
             cp == None || (!NulBeforeEnd(cp.value, s[..t + 1], 0, strict) && ZeroIsNul(cp.value))) &&
            (c.Some? && c.value.complete ==> ZeroEnds(c.value.output))
  {
    hide ToWide, NulBeforeEnd, ZeroIsNul, Terminator;
    TerminatorCounts(s, t);
    var cp := SupportedCodePage(codePage, table);
    if cp.Some? {
      TerminatedIsWhole(cp.value, s[..t + 1], 0, strict);
      if ToWide(cp.value, s[..t + 1], 0, true, strict).complete {
        TerminatedUnits(cp.value, s[..t + 1], 0, strict);
      }
    }
  }

  /** Without a count, units are converted like as many as there are up to the terminator. */
  lemma BytesUpToTerminator(codePage: int, table: Option<Table>, s: seq<Unit>, t: nat, strict: bool,
                            defaultChar: Byte)
    requires table.Some? ==> table.value.Valid()
    requires FirstZero(s, t)
    ensures var c := BytesConversion(codePage, table, Some(s), -1, strict, defaultChar);
            var cp := SupportedCodePage(codePage, table);
            c == BytesConversion(codePage, table, Some(s), t + 1, strict, defaultChar) &&
            (c.Some? && c.value.complete ==>
               0 < |c.value.output| && (ZeroIsNul(cp.value) && defaultChar != 0 ==> ZeroEnds(c.value.output)))
  {
    hide ToBytes, NeedsDefault, ZeroIsNul, Terminator;
    TerminatorCounts(s, t);
    var cp := SupportedCodePage(codePage, table);
    if cp.Some? {
      var text := s[..t + 1];
      TerminatedBytesAreWhole(cp.value, text, 0, strict, defaultChar);
      if ToBytes(cp.value, text, 0, true, strict, defaultChar).complete {
        SomethingWritten(cp.value, text, 0, strict, defaultChar);
        if ZeroIsNul(cp.value) && defaultChar != 0 {
          TerminatedBytes(cp.value, text, 0, strict, defaultChar);
        }
      }
    }
  }

  /** The count and the error that are returned. */
  ghost function Returned<T>(c: Option<Conversion<T>>, capacity: int): (nat, Option<LastError>) {
    if c == None then (0, Some(InvalidParameter)) else Outcome(c.value, capacity)
  }

  /** Finds the number of elements of the input. */
  method CountInput(s: seq<int>, count: int) returns (n: Option<nat>)
    requires count <= |s| && (count == -1 ==> 0 in s)
    ensures n == InputCount(s, count)
    ensures n.Some? ==> n.value <= |s|
    ensures count == -1 ==> n.Some? && 0 < n.value && FirstZero(s, n.value - 1)
  {
    if count == -1 {
      var k := 0;
      assert s[0..] == s;
      while s[k] != 0
        invariant k < |s| && 0 in s[k..] && forall j :: 0 <= j < k ==> s[j] != 0
        decreases |s| - k
      {
        k := k + 1;
      }
      TerminatorCounts(s, k);
      return Some(k + 1);
    } else if count < 0 {
      return None;
    } else {
      return Some(count);
    }
  }

  /** Stores the elements of one scalar, unless only the size is asked for, or they do not fit. */
  method Put<T>(elements: seq<T>, out: array<T>, produced: nat, capacity: int) returns (fits: bool)
    requires capacity <= out.Length && (0 < capacity ==> produced <= capacity)
    modifies out
    ensures fits == !(0 < capacity < produced + |elements|)
    ensures fits && 0 < capacity ==>
              out[..produced + |elements|] == old(out[..produced]) + elements &&
              forall k :: produced + |elements| <= k < out.Length ==> out[k] == old(out[k])
    ensures !fits || capacity <= 0 ==> forall k :: 0 <= k < out.Length ==> out[k] == old(out[k])
  {
    fits := true;
    if capacity > 0 {
      if produced + |elements| > capacity {
        return false;
      }
      for i := 0 to |elements|
        invariant forall k :: 0 <= k < out.Length ==>
                    out[k] == if produced <= k < produced + i then elements[k - produced] else old(out[k])
      {
        out[produced + i] := elements[i];
      }
    }
  }

  /** Bytes to UTF-16. */
  method MultiByteToWideChar(codePage: int, errorOnInvalid: bool, str: Option<seq<Byte>>, count: int,
                             out: array<Unit>, capacity: int, table: Option<Table>)
    returns (n: nat, error: Option<LastError>)
    requires table.Some? ==> table.value.Valid()
    requires str.Some? ==> count <= |str.value| && (count == -1 ==> 0 in str.value)
    requires capacity <= out.Length
    modifies out
    ensures (n, error) == Returned(WideConversion(codePage, table, str, count, errorOnInvalid), capacity)
    ensures error == None && 0 < capacity ==>
              out[..n] == WideConversion(codePage, table, str, count, errorOnInvalid).value.output
    ensures error == None && count == -1 ==> 0 < n && (0 < capacity ==> ZeroEnds(out[..n]))
    ensures forall k :: 0 <= k < out.Length && (capacity <= k || (error == None && n <= k)) ==> out[k] == old(out[k])
  {
    var effective := SupportedCodePage(codePage, table);
    if effective == None || str == None {
      return 0, Some(InvalidParameter);
    }
    var nullTerminated := count == -1;
    var byteCount := CountInput(str.value, count);
    if byteCount == None {
      return 0, Some(InvalidParameter);
    }
    if nullTerminated {
      WideUpToTerminator(codePage, table, str.value, byteCount.value - 1, errorOnInvalid);
    }
    n, error := Widen(effective.value, str.value[..byteCount.value], nullTerminated, errorOnInvalid, out, capacity);
  }

  /** Reads the scalar at `start`, unless it is refused. */
  method NextScalar(cp: CodePage, text: seq<Byte>, start: nat, nullTerminated: bool, errorOnInvalid: bool)
    returns (refused: bool, scalar: nat, p: nat)
    requires cp.Valid() && start < |text|
    ensures refused == (errorOnInvalid && Malformed(cp, text, start))
    ensures !refused ==> (scalar, p) == WideScalar(cp, text, start, nullTerminated)
  {
    hide Utf8At;
    refused, scalar, p := false, 0, start;
    var byte := text[p];
    if byte == 0 && nullTerminated {
      NulIsNul(text, p);
      scalar := 0;
      p := p + 1;
    } else if cp.Utf8? {
      scalar, p := DecodeUtf8(text, p);
      if scalar == REPLACEMENT && errorOnInvalid {
        refused := text[start..p] != [0xef, 0xbf, 0xbd];
      }
    } else {
      scalar := cp.table.toUnicode[byte];
      p := p + 1;
    }
  }

  method Widen(cp: CodePage, text: seq<Byte>, nullTerminated: bool, errorOnInvalid: bool, out: array<Unit>,
               capacity: int)
    returns (produced: nat, error: Option<LastError>)
    requires cp.Valid() && capacity <= out.Length
    modifies out
    ensures (produced, error) == Outcome(ToWide(cp, text, 0, nullTerminated, errorOnInvalid), capacity)
    ensures error == None && 0 < capacity ==>
              out[..produced] == ToWide(cp, text, 0, nullTerminated, errorOnInvalid).output
    ensures forall k :: 0 <= k < out.Length && (capacity <= k || (error == None && produced <= k)) ==>
              out[k] == old(out[k])
  {
    hide EncodeUtf16, Utf8At, WideScalar, Malformed, ToWide;
    var p := 0;
    produced, error := 0, None;
    ConversionEnds(cp, text, [], nullTerminated, errorOnInvalid, 0);
    ghost var all, done := ToWide(cp, text, 0, nullTerminated, errorOnInvalid), [];
    assert all.After(done) == all;
    while p < |text|
      invariant p <= |text| && produced == |done| && error == None
      invariant ToWide(cp, text, p, nullTerminated, errorOnInvalid).After(done) == all
      invariant 0 < capacity ==> produced <= capacity && out[..produced] == done
      invariant forall k :: 0 <= k < out.Length && (capacity <= 0 || produced <= k) ==> out[k] == old(out[k])
    {
      ToWideStep(cp, text, p, nullTerminated, errorOnInvalid);
      var refused, scalar;
      refused, scalar, p := NextScalar(cp, text, p, nullTerminated, errorOnInvalid);
      if refused {
        return 0, Some(NoUnicodeTranslation);
      }
      var units := EncodeUtf16(scalar);
      var fits := Put(units, out, produced, capacity);
      if !fits {
        return 0, Some(InsufficientBuffer);
      }
      produced := produced + |units|;
      if scalar == 0 && nullTerminated {
        return;
      }
      AfterAfter(ToWide(cp, text, p, nullTerminated, errorOnInvalid), units, done);
      done := done + units;
    }
  }

  lemma AfterAfter<T>(c: Conversion<T>, a: seq<T>, b: seq<T>)
    ensures c.After(a).After(b) == c.After(b + a)
  {
    assert b + (a + c.output) == b + a + c.output;
  }

  /** The byte for what has none: a question mark, unless another one is passed. */
  function DefaultChar(lpDefaultChar: Option<Byte>): (r: Byte)
    ensures r != 0
  {
    if lpDefaultChar.Some? && lpDefaultChar.value != 0 then lpDefaultChar.value else 0x3f
  }

  /** A scalar without a byte is written as the byte that is passed, unless that is 0 or missing; then, as `?`. */
  lemma WrittenWithoutByte(table: Table, scalar: nat, lpDefaultChar: Option<Byte>)
    requires table.Valid() && scalar <= 0x10_ffff && forall b: Byte :: table.toUnicode[b] != scalar
    ensures var r := ScalarBytes(Ansi(table), scalar, DefaultChar(lpDefaultChar));
            match lpDefaultChar
            case Some(b) => r == (if b == 0 then ['?' as int] else [b])
            case None => r == ['?' as int]
  {
    WrittenAsItsByte(table, scalar, DefaultChar(lpDefaultChar));
  }

  /** UTF-16 to bytes. */
  method WideCharToMultiByte(codePage: int, errorOnInvalid: bool, str: Option<seq<Unit>>, count: int,
                             out: array<Byte>, capacity: int, lpDefaultChar: Option<Byte>, table: Option<Table>)
    returns (n: nat, error: Option<LastError>, usedDefaultChar: bool)
    requires table.Some? ==> table.value.Valid()
    requires str.Some? ==> count <= |str.value| && (count == -1 ==> 0 in str.value)
    requires capacity <= out.Length
    modifies out
    ensures (n, error) ==
            Returned(BytesConversion(codePage, table, str, count, errorOnInvalid, DefaultChar(lpDefaultChar)), capacity)
    ensures error == None && 0 < capacity ==>
              out[..n] == BytesConversion(codePage, table, str, count, errorOnInvalid,
                                          DefaultChar(lpDefaultChar)).value.output
    ensures error == None && count == -1 ==>
              0 < n && (0 < capacity && ZeroIsNul(SupportedCodePage(codePage, table).value) ==> ZeroEnds(out[..n]))
    ensures forall k :: 0 <= k < out.Length && (capacity <= k || (error == None && n <= k)) ==> out[k] == old(out[k])
    ensures error == None ==>
              usedDefaultChar == NeedsDefault(SupportedCodePage(codePage, table).value,
                                              str.value[..InputCount(str.value, count).value], 0, count == -1)
    ensures error == Some(InvalidParameter) ==> !usedDefaultChar
  {
    usedDefaultChar := false;
    var effective := SupportedCodePage(codePage, table);
    if effective == None || str == None {
      return 0, Some(InvalidParameter), false;
    }
    var nullTerminated := count == -1;
    var charCount := CountInput(str.value, count);
    if charCount == None {
      return 0, Some(InvalidParameter), false;
    }
    if nullTerminated {
      BytesUpToTerminator(codePage, table, str.value, charCount.value - 1, errorOnInvalid, DefaultChar(lpDefaultChar));
    }
    n, error, usedDefaultChar :=
      Narrow(effective.value, str.value[..charCount.value], nullTerminated, errorOnInvalid, out, capacity,
             DefaultChar(lpDefaultChar));
  }

  /** Reads the scalar at `start`; a terminator stands for itself. */
  method NextUnits(text: seq<Unit>, start: nat, nullTerminated: bool) returns (scalar: nat, p: nat)
    requires start < |text|
    ensures (scalar, p) == DecodeUtf16(text, start)
  {
    if text[start] == 0 && nullTerminated {
      scalar, p := 0, start + 1;
    } else {
      var decoded := DecodeUtf16(text, start);
      scalar, p := decoded.0, decoded.1;
    }
  }

  method Narrow(cp: CodePage, text: seq<Unit>, nullTerminated: bool, errorOnInvalid: bool, out: array<Byte>,
                capacity: int, defaultChar: Byte)
    returns (produced: nat, error: Option<LastError>, usedDefaultChar: bool)
    requires cp.Valid() && capacity <= out.Length
    modifies out
    ensures (produced, error) == Outcome(ToBytes(cp, text, 0, nullTerminated, errorOnInvalid, defaultChar), capacity)
    ensures error != Some(InvalidParameter)
    ensures error == None && 0 < capacity ==>
              out[..produced] == ToBytes(cp, text, 0, nullTerminated, errorOnInvalid, defaultChar).output
    ensures forall k :: 0 <= k < out.Length && (capacity <= k || (error == None && produced <= k)) ==>
              out[k] == old(out[k])
    ensures error == None ==> usedDefaultChar == NeedsDefault(cp, text, 0, nullTerminated)
  {
    hide ScalarBytes, Mappable, CodePointAt, DecodeUtf16, ToBytes, NeedsDefault;
    var p := 0;
    produced, error, usedDefaultChar := 0, None, false;
    ConversionEnds(cp, [], text, nullTerminated, errorOnInvalid, defaultChar);
    ghost var all, done := ToBytes(cp, text, 0, nullTerminated, errorOnInvalid, defaultChar), [];
    assert all.After(done) == all;
    while p < |text|
      invariant p <= |text| && produced == |done| && error == None
      invariant ToBytes(cp, text, p, nullTerminated, errorOnInvalid, defaultChar).After(done) == all
      invariant (usedDefaultChar || NeedsDefault(cp, text, p, nullTerminated)) ==
                NeedsDefault(cp, text, 0, nullTerminated)
      invariant 0 < capacity ==> produced <= capacity && out[..produced] == done
      invariant forall k :: 0 <= k < out.Length && (capacity <= 0 || produced <= k) ==> out[k] == old(out[k])
    {
      ToBytesStep(cp, text, p, nullTerminated, errorOnInvalid, defaultChar);
      var scalar;
      scalar, p := NextUnits(text, p, nullTerminated);
      if !Mappable(cp, scalar) {
        if errorOnInvalid {
          return 0, Some(NoUnicodeTranslation), usedDefaultChar;
        }
        usedDefaultChar := true;
      }
      var buffer := ScalarBytes(cp, scalar, defaultChar);
      var fits := Put(buffer, out, produced, capacity);
      if !fits {
        return 0, Some(InsufficientBuffer), usedDefaultChar;
      }
      produced := produced + |buffer|;
      if scalar == 0 && nullTerminated {
        return;
      }
      AfterAfter(ToBytes(cp, text, p, nullTerminated, errorOnInvalid, defaultChar), buffer, done);
      done := done + buffer;
    }
  }
}
