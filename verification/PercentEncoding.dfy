/**
 Percent-encoding of JavaScript strings: `encodeURIComponent` and
 `decodeURIComponent` (section 19.2.6 of ECMA-262) and the stricter encoding
 built on them, which keeps only letters and digits (section 2.1 of RFC 3986).
 */
module PercentEncoding {
  import opened Wrappers
  import opened Unicode

  const PERCENT: CodeUnit := 0x25

  const SLASH: CodeUnit := 0x2F

  predicate IsAlnum(c: CodeUnit) {
    0x30 <= c <= 0x39 || 0x41 <= c <= 0x5A || 0x61 <= c <= 0x7A
  }

  /** The marks `- _ . ! ~ * ' ( )` that `encodeURIComponent` leaves alone. */
  predicate IsMark(c: CodeUnit) {
    c == 0x2D || c == 0x5F || c == 0x2E || c == 0x21 || c == 0x7E || c == 0x2A || c == 0x27 || c == 0x28 || c == 0x29
  }

  function HexDigit(n: int): CodeUnit
    requires 0 <= n < 16
  {
    if n < 10 then 0x30 + n else 0x41 + n - 10
  }

  function HexValue(c: CodeUnit): Option<nat> {
    if 0x30 <= c <= 0x39 then Some(c - 0x30)
    else if 0x41 <= c <= 0x46 then Some(c - 0x41 + 10)
    else if 0x61 <= c <= 0x66 then Some(c - 0x61 + 10)
    else None
  }

  function Escape(b: Byte): JsString {
    [PERCENT, HexDigit(b / 16), HexDigit(b % 16)]
  }

  function EscapeAll(bytes: seq<Byte>): (r: JsString)
    ensures |r| == 3 * |bytes|
  {
    if bytes == [] then [] else Escape(bytes[0]) + EscapeAll(bytes[1..])
  }

  // ------------------------------------------------------------------------
  // Encoding
  // ------------------------------------------------------------------------

  /** None stands for the URIError thrown on a lone surrogate. */
  function EncodeUriComponent(s: JsString): Option<JsString> {
    if s == [] then Some([])
    else if IsAlnum(s[0]) || IsMark(s[0]) then
      var rest := EncodeUriComponent(s[1..]);
      if rest.None? then None else Some([s[0]] + rest.value)
    else if FirstPoint(s).None? then None
    else
      var (p, n) := FirstPoint(s).value;
      var rest := EncodeUriComponent(s[n..]);
      if rest.None? then None else Some(EscapeAll(Utf8(p)) + rest.value)
  }

  /** The `replace` over the marks. */
  function ReplaceMarks(s: JsString): JsString {
    if s == [] then [] else (if IsMark(s[0]) then Escape(s[0]) else [s[0]]) + ReplaceMarks(s[1..])
  }

  function EncodeNoSlash(input: JsString): Option<JsString> {
    var encoded := EncodeUriComponent(input);
    if encoded.None? then None else Some(ReplaceMarks(encoded.value))
  }

  /** `split("/")`. */
  function Split(s: JsString): (r: seq<JsString>)
    ensures r != []
  {
    if s == [] then [[]]
    else
      var rest := Split(s[1..]);
      if s[0] == SLASH then [[]] + rest else [[s[0]] + rest[0]] + rest[1..]
  }

  /** `join("/")`. */
  function Join(parts: seq<JsString>): JsString
    requires parts != []
  {
    if |parts| == 1 then parts[0] else parts[0] + [SLASH] + Join(parts[1..])
  }

  /** Encodes every segment; None if any of them throws. */
  function EncodeEach(parts: seq<JsString>): (r: Option<seq<JsString>>)
    ensures r.Some? ==> |r.value| == |parts|
  {
    if parts == [] then Some([])
    else
      var first, rest := EncodeNoSlash(parts[0]), EncodeEach(parts[1..]);
      if first.None? || rest.None? then None else Some([first.value] + rest.value)
  }

  function EncodePreserveSlash(input: JsString): Option<JsString> {
    var parts := EncodeEach(Split(input));
    if parts.None? then None else Some(Join(parts.value))
  }

  // ------------------------------------------------------------------------
  // Decoding
  // ------------------------------------------------------------------------

  /** The byte written as `%XX` at the front. */
  function EscapedByte(s: JsString): Option<Byte> {
    if |s| < 3 || s[0] != PERCENT || HexValue(s[1]).None? || HexValue(s[2]).None? then None
    else Some(HexValue(s[1]).value * 16 + HexValue(s[2]).value)
  }

  function EscapedBytes(s: JsString, n: nat): (r: Option<seq<Byte>>)
    ensures r.Some? ==> |r.value| == n && 3 * n <= |s|
  {
    if n == 0 then Some([])
    else if EscapedByte(s).None? then None
    else
      var rest := EscapedBytes(s[3..], n - 1);
      if rest.None? then None else Some([EscapedByte(s).value] + rest.value)
  }

  /** One step of `decodeURIComponent`: the units produced and the units consumed. */
  function DecodeFirst(s: JsString): (r: Option<(JsString, nat)>)
    requires s != []
    ensures r.Some? ==> 1 <= r.value.1 <= |s| && r.value.0 != []
  {
    if s[0] != PERCENT then Some(([s[0]], 1))
    else if EscapedByte(s).None? || SequenceLength(EscapedByte(s).value).None? then None
    else
      var n := SequenceLength(EscapedByte(s).value).value;
      var bytes := EscapedBytes(s, n);
      if bytes.None? || FromUtf8(bytes.value).None? then None
      else Some((Utf16(FromUtf8(bytes.value).value), 3 * n))
  }

  /** None stands for the URIError that `decodeComponent` turns into null. */
  function DecodeComponent(s: JsString): Option<JsString> {
    if s == [] then Some([])
    else if DecodeFirst(s).None? then None
    else
      var (units, n) := DecodeFirst(s).value;
      var rest := DecodeComponent(s[n..]);
      if rest.None? then None else Some(units + rest.value)
  }

  // ------------------------------------------------------------------------
  // The encoders in one pass
  // ------------------------------------------------------------------------

  predicate Kept(c: CodeUnit, keepSlash: bool) {
    IsAlnum(c) || (keepSlash && c == SLASH)
  }

  /** The strict encoding, code point by code point. */
  function Encoded(s: JsString, keepSlash: bool): JsString
    requires WellFormed(s)
  {
    if s == [] then []
    else
      var (p, n) := FirstPoint(s).value;
      (if Kept(s[0], keepSlash) then [s[0]] else EscapeAll(Utf8(p))) + Encoded(s[n..], keepSlash)
  }

  lemma {:induction false} ReplaceMarksAppend(a: JsString, b: JsString)
    ensures ReplaceMarks(a + b) == ReplaceMarks(a) + ReplaceMarks(b)
  {
    if a == [] {
      assert a + b == b;
    } else {
      assert (a + b)[1..] == a[1..] + b;
      ReplaceMarksAppend(a[1..], b);
    }
  }

  lemma {:induction false} EscapesHaveNoMarks(bytes: seq<Byte>)
    ensures ReplaceMarks(EscapeAll(bytes)) == EscapeAll(bytes)
  {
    if bytes == [] {
    } else {
      var e := Escape(bytes[0]);
      assert e[1..] == [e[1], e[2]] && e[1..][1..] == [e[2]] && [e[2]][1..] == [];
      assert ReplaceMarks([e[2]]) == [e[2]];
      assert ReplaceMarks(e[1..]) == [e[1]] + ReplaceMarks([e[2]]);
      assert ReplaceMarks(e) == e;
      EscapesHaveNoMarks(bytes[1..]);
      ReplaceMarksAppend(e, EscapeAll(bytes[1..]));
    }
  }

  /** `encodeNoSlash` succeeds exactly on well-formed strings, and is the strict encoding. */
  lemma {:induction false} EncodeNoSlashIsStrict(s: JsString)
    ensures EncodeNoSlash(s) == if WellFormed(s) then Some(Encoded(s, false)) else None
  {
    if s == [] {
    } else {
      if IsAlnum(s[0]) || IsMark(s[0]) {
        EncodeNoSlashIsStrict(s[1..]);
        if WellFormed(s) {
          var rest := EncodeUriComponent(s[1..]).value;
          ReplaceMarksAppend([s[0]], rest);
          assert ReplaceMarks([s[0]]) == if IsMark(s[0]) then Escape(s[0]) else [s[0]];
          assert EscapeAll([s[0]]) == Escape(s[0]);
        }
      } else if FirstPoint(s).Some? {
        var (p, n) := FirstPoint(s).value;
        EncodeNoSlashIsStrict(s[n..]);
        if WellFormed(s) {
          EscapesHaveNoMarks(Utf8(p));
          ReplaceMarksAppend(EscapeAll(Utf8(p)), EncodeUriComponent(s[n..]).value);
        }
      }
    }
  }

  lemma EncodeEmptySegment(parts: seq<JsString>)
    requires |parts| == 1 && parts[0] == []
    ensures EncodeNoSlash([]) == Some([]) && EncodeEach(parts) == Some(parts)
  {
    assert EncodeUriComponent([]) == Some([]);
    assert parts[1..] == [] && EncodeEach(parts[1..]) == Some([]);
    assert parts == [parts[0]] + [];
  }

  /** A code point other than a slash goes to the front of the first segment. */
  lemma SplitCons(c: CodeUnit, s: JsString)
    requires c != SLASH
    ensures Split([c] + s) == [[c] + Split(s)[0]] + Split(s)[1..]
  {
    assert ([c] + s)[0] == c && ([c] + s)[1..] == s;
  }

  lemma SplitPair(s: JsString)
    requires |s| > 1 && s[0] != SLASH && s[1] != SLASH
    ensures Split(s) == [[s[0], s[1]] + Split(s[2..])[0]] + Split(s[2..])[1..]
  {
    assert s == [s[0]] + s[1..] && s[1..] == [s[1]] + s[2..];
    SplitCons(s[0], s[1..]);
    SplitCons(s[1], s[2..]);
    assert [s[0]] + ([s[1]] + Split(s[2..])[0]) == [s[0], s[1]] + Split(s[2..])[0];
  }

  lemma SplitFirstPoint(s: JsString)
    requires s != [] && s[0] != SLASH
    ensures Split(s)[0] != [] && FirstPoint(Split(s)[0]) == FirstPoint(s)
    ensures FirstPoint(s).Some? ==>
      var n := FirstPoint(s).value.1;
      Split(s)[0] == s[..n] + Split(s[n..])[0] && Split(s)[1..] == Split(s[n..])[1..]
  {
    assert s == [s[0]] + s[1..];
    SplitCons(s[0], s[1..]);
    assert s[..1] == [s[0]];
    if |s| > 1 {
      if s[1] == SLASH {
        assert Split(s[1..])[0] == [];
      } else {
        SplitPair(s);
        assert s[..2] == [s[0], s[1]];
      }
    } else {
      assert s[1..] == [];
    }
  }

  /** What the first code point turns into. */
  function Head(s: JsString): JsString
    requires s != [] && FirstPoint(s).Some?
  {
    if IsAlnum(s[0]) then [s[0]] else EscapeAll(Utf8(FirstPoint(s).value.0))
  }

  lemma EncodeSegmentHead(a: JsString)
    requires a != [] && FirstPoint(a).Some?
    ensures var rest := EncodeNoSlash(a[FirstPoint(a).value.1..]);
      EncodeNoSlash(a) == if rest.None? then None else Some(Head(a) + rest.value)
  {
    EncodeNoSlashIsStrict(a);
    EncodeNoSlashIsStrict(a[FirstPoint(a).value.1..]);
  }

  lemma JoinHead(head: JsString, parts: seq<JsString>)
    requires parts != []
    ensures Join([head + parts[0]] + parts[1..]) == head + Join(parts)
  {
    var parts' := [head + parts[0]] + parts[1..];
    assert parts'[1..] == parts[1..];
    if |parts| > 1 {
      assert (head + parts[0]) + [SLASH] + Join(parts[1..]) == head + (parts[0] + [SLASH] + Join(parts[1..]));
    }
  }

  lemma EncodeFirstSegment(s: JsString)
    requires s != [] && s[0] != SLASH && FirstPoint(s).Some?
    ensures var rest := EncodePreserveSlash(s[FirstPoint(s).value.1..]);
      EncodePreserveSlash(s) == if rest.None? then None else Some(Head(s) + rest.value)
  {
    var n := FirstPoint(s).value.1;
    var parts, parts' := Split(s), Split(s[n..]);
    SplitFirstPoint(s);
    EncodeSegmentHead(parts[0]);
    assert parts[0][n..] == parts'[0] && Head(parts[0]) == Head(s);
    assert parts[1..] == parts'[1..];
    if EncodeEach(parts').Some? {
      var e' := EncodeEach(parts').value;
      assert e'[1..] == EncodeEach(parts'[1..]).value;
      assert EncodeEach(parts) == Some([Head(s) + e'[0]] + e'[1..]);
      JoinHead(Head(s), e');
    }
  }

  /** Splitting at slashes, encoding the segments and joining them is the strict encoding that keeps slashes. */
  lemma {:induction false} EncodePreserveSlashIsStrict(s: JsString)
    ensures EncodePreserveSlash(s) == if WellFormed(s) then Some(Encoded(s, true)) else None
  {
    EncodeEmptySegment([[]]);
    if s == [] {
      EncodeEmptySegment(Split(s));
    } else if s[0] == SLASH {
      EncodePreserveSlashIsStrict(s[1..]);
      var rest := Split(s[1..]);
      assert Split(s) == [[]] + rest && Split(s)[1..] == rest;
      assert FirstPoint(s) == Some((SLASH, 1));
      if EncodeEach(rest).Some? {
        var e := EncodeEach(rest).value;
        assert EncodeEach(Split(s)) == Some([[]] + e);
        assert ([[]] + e)[1..] == e;
        assert Join([[]] + e) == [] + [SLASH] + Join(e) == [SLASH] + Join(e);
      }
    } else {
      SplitFirstPoint(s);
      if FirstPoint(s).Some? {
        var n := FirstPoint(s).value.1;
        EncodePreserveSlashIsStrict(s[n..]);
        EncodeFirstSegment(s);
      } else {
        EncodeNoSlashIsStrict(Split(s)[0]);
      }
    }
  }

  // ------------------------------------------------------------------------
  // What the encoders leave alone, and what an escape looks like
  // ------------------------------------------------------------------------

  /** A letter or a digit, or the slash where that is kept. */
  predicate LeftAlone(c: int, keepSlash: bool) {
    || '0' as int <= c <= '9' as int
    || 'A' as int <= c <= 'Z' as int
    || 'a' as int <= c <= 'z' as int
    || (keepSlash && c == '/' as int)
  }

  /** A percent sign and the two capital hexadecimal digits of the byte. */
  predicate IsEscape(e: JsString, b: Byte) {
    && |e| == 3
    && e[0] == '%' as int
    && e[1] == "0123456789ABCDEF"[b / 16] as int
    && e[2] == "0123456789ABCDEF"[b % 16] as int
  }

  lemma HexDigitExact(n: nat)
    requires n < 16
    ensures HexDigit(n) == "0123456789ABCDEF"[n] as int
  {
    var digits := "0123456789ABCDEF";
    assert digits[0] == '0' && digits[1] == '1' && digits[2] == '2' && digits[3] == '3' && digits[4] == '4';
    assert digits[5] == '5' && digits[6] == '6' && digits[7] == '7' && digits[8] == '8' && digits[9] == '9';
    assert digits[10] == 'A' && digits[11] == 'B' && digits[12] == 'C' && digits[13] == 'D' && digits[14] == 'E';
    assert digits[15] == 'F';
  }

  /** Each byte becomes its own escape. */
  lemma {:induction false} EscapeAllExact(bytes: seq<Byte>, n: nat)
    requires n < |bytes|
    ensures IsEscape(EscapeAll(bytes)[3 * n..3 * n + 3], bytes[n])
  {
    if n == 0 {
      HexDigitExact(bytes[0] / 16);
      HexDigitExact(bytes[0] % 16);
      assert EscapeAll(bytes)[0..3] == Escape(bytes[0]);
    } else {
      EscapeAllExact(bytes[1..], n - 1);
      assert EscapeAll(bytes)[3 * n..3 * n + 3] == EscapeAll(bytes[1..])[3 * (n - 1)..3 * (n - 1) + 3];
    }
  }

  /** What a code point turns into: itself, or the escapes of its bytes. */
  function PointText(p: Scalar, keepSlash: bool): JsString {
    if LeftAlone(p, keepSlash) then [p] else EscapeAll(Utf8(p))
  }

  lemma FirstUnit(p: Scalar, rest: JsString, keepSlash: bool)
    ensures var c := (Utf16(p) + rest)[0];
      (Kept(c, keepSlash) <==> LeftAlone(p, keepSlash)) && (LeftAlone(p, keepSlash) ==> c == p)
  {
  }

  lemma EncodedFirst(p: Scalar, rest: JsString, keepSlash: bool)
    requires WellFormed(rest)
    ensures WellFormed(Utf16(p) + rest)
    ensures Encoded(Utf16(p) + rest, keepSlash) == PointText(p, keepSlash) + Encoded(rest, keepSlash)
  {
    var s := Utf16(p) + rest;
    Utf16FirstPoint(p, rest);
    FirstUnit(p, rest, keepSlash);
    assert Encoded(s, keepSlash) == PointText(p, keepSlash) + Encoded(s[|Utf16(p)|..], keepSlash);
  }

  lemma EncodedAlone(p: Scalar, keepSlash: bool)
    ensures WellFormed(Utf16(p)) && Encoded(Utf16(p), keepSlash) == PointText(p, keepSlash)
  {
    EncodedFirst(p, [], keepSlash);
    assert Utf16(p) + [] == Utf16(p) && PointText(p, keepSlash) + [] == PointText(p, keepSlash);
  }

  /** A code point is left alone, or escaped byte by byte. */
  lemma EncodedPoint(p: Scalar)
    ensures EncodeNoSlash(Utf16(p)) == Some(if LeftAlone(p, false) then [p] else EscapeAll(Utf8(p)))
    ensures EncodePreserveSlash(Utf16(p)) == Some(if LeftAlone(p, true) then [p] else EscapeAll(Utf8(p)))
  {
    EncodedAlone(p, false);
    EncodedAlone(p, true);
    EncodeNoSlashIsStrict(Utf16(p));
    EncodePreserveSlashIsStrict(Utf16(p));
  }

  lemma HeadFirst(head: JsString, a: JsString, b: JsString)
    ensures head + (a + b) == (head + a) + b
  {
  }

  lemma ConcatStep(p: Scalar, rest: JsString, b: JsString, keepSlash: bool)
    requires WellFormed(rest) && WellFormed(rest + b) && WellFormed(b)
    requires Encoded(rest + b, keepSlash) == Encoded(rest, keepSlash) + Encoded(b, keepSlash)
    ensures WellFormed(Utf16(p) + rest) && WellFormed((Utf16(p) + rest) + b)
    ensures Encoded((Utf16(p) + rest) + b, keepSlash) ==
            Encoded(Utf16(p) + rest, keepSlash) + Encoded(b, keepSlash)
  {
    HeadFirst(Utf16(p), rest, b);
    EncodedFirst(p, rest, keepSlash);
    EncodedFirst(p, rest + b, keepSlash);
    HeadFirst(PointText(p, keepSlash), Encoded(rest, keepSlash), Encoded(b, keepSlash));
  }

  lemma {:induction false} EncodedConcat(a: JsString, b: JsString, keepSlash: bool)
    requires WellFormed(a) && WellFormed(b)
    ensures WellFormed(a + b)
    ensures Encoded(a + b, keepSlash) == Encoded(a, keepSlash) + Encoded(b, keepSlash)
  {
    if a == [] {
      assert a + b == b;
    } else {
      var (p, n) := FirstPoint(a).value;
      FirstPointIsUtf16(a);
      EncodedConcat(a[n..], b, keepSlash);
      ConcatStep(p, a[n..], b, keepSlash);
    }
  }

  /** A text is encoded part by part. */
  lemma EncodedAppend(a: JsString, b: JsString)
    requires WellFormed(a) && WellFormed(b)
    ensures EncodeNoSlash(a).Some? && EncodeNoSlash(b).Some?
    ensures EncodeNoSlash(a + b) == Some(EncodeNoSlash(a).value + EncodeNoSlash(b).value)
    ensures EncodePreserveSlash(a).Some? && EncodePreserveSlash(b).Some?
    ensures EncodePreserveSlash(a + b) == Some(EncodePreserveSlash(a).value + EncodePreserveSlash(b).value)
  {
    EncodedConcat(a, b, false);
    EncodedConcat(a, b, true);
    EncodeNoSlashIsStrict(a);
    EncodeNoSlashIsStrict(b);
    EncodeNoSlashIsStrict(a + b);
    EncodePreserveSlashIsStrict(a);
    EncodePreserveSlashIsStrict(b);
    EncodePreserveSlashIsStrict(a + b);
  }

  // ------------------------------------------------------------------------
  // Decoding undoes encoding
  // ------------------------------------------------------------------------

  lemma EscapedByteRoundTrip(b: Byte, rest: JsString)
    ensures EscapedByte(Escape(b) + rest) == Some(b) && (Escape(b) + rest)[3..] == rest
  {
  }

  lemma {:induction false} EscapedBytesRoundTrip(bytes: seq<Byte>, rest: JsString)
    ensures EscapedBytes(EscapeAll(bytes) + rest, |bytes|) == Some(bytes)
  {
    if bytes == [] {
    } else {
      var tail := EscapeAll(bytes[1..]) + rest;
      assert EscapeAll(bytes) + rest == Escape(bytes[0]) + tail;
      EscapedByteRoundTrip(bytes[0], tail);
      EscapedBytesRoundTrip(bytes[1..], rest);
      assert bytes == [bytes[0]] + bytes[1..];
    }
  }

  lemma FirstOfRun(s: JsString, n: nat)
    requires s != [] && s[0] == PERCENT && EscapedByte(s).Some? && SequenceLength(EscapedByte(s).value) == Some(n)
    ensures DecodeFirst(s) ==
      if EscapedBytes(s, n).None? || FromUtf8(EscapedBytes(s, n).value).None? then None
      else Some((Utf16(FromUtf8(EscapedBytes(s, n).value).value), 3 * n))
  {
  }

  lemma EscapesInFront(bytes: seq<Byte>, rest: JsString)
    requires bytes != []
    ensures var s := EscapeAll(bytes) + rest;
      s != [] && s[0] == PERCENT && EscapedByte(s) == Some(bytes[0]) && s[3 * |bytes|..] == rest
  {
    assert EscapeAll(bytes) + rest == Escape(bytes[0]) + (EscapeAll(bytes[1..]) + rest);
    EscapedByteRoundTrip(bytes[0], EscapeAll(bytes[1..]) + rest);
  }

  lemma DecodeEscapedPoint(p: Scalar, rest: JsString)
    ensures var s := EscapeAll(Utf8(p)) + rest;
      s != [] && DecodeFirst(s) == Some((Utf16(p), 3 * |Utf8(p)|)) && s[3 * |Utf8(p)|..] == rest
  {
    var bytes := Utf8(p);
    Utf8RoundTrip(p);
    EscapedBytesRoundTrip(bytes, rest);
    EscapesInFront(bytes, rest);
    FirstOfRun(EscapeAll(bytes) + rest, |bytes|);
  }

  lemma {:induction false} DecodeEncoded(s: JsString, keepSlash: bool)
    requires WellFormed(s)
    ensures DecodeComponent(Encoded(s, keepSlash)) == Some(s)
  {
    if s == [] {
    } else {
      var (p, n) := FirstPoint(s).value;
      var rest := Encoded(s[n..], keepSlash);
      DecodeEncoded(s[n..], keepSlash);
      FirstPointIsUtf16(s);
      if Kept(s[0], keepSlash) {
        assert ([s[0]] + rest)[1..] == rest;
      } else {
        DecodeEscapedPoint(p, rest);
      }
    }
  }

  lemma {:induction false} EscapesAreSlashFree(bytes: seq<Byte>)
    ensures SLASH !in EscapeAll(bytes)
  {
    if bytes == [] {
    } else {
      EscapesAreSlashFree(bytes[1..]);
    }
  }

  /** The strict encoding without slashes contains only letters, digits and percent signs. */
  lemma {:induction false} EncodedIsSlashFree(s: JsString)
    requires WellFormed(s)
    ensures SLASH !in Encoded(s, false)
    ensures s != [] ==> Encoded(s, false) != []
  {
    if s == [] {
    } else {
      var (p, n) := FirstPoint(s).value;
      EncodedIsSlashFree(s[n..]);
      EscapesAreSlashFree(Utf8(p));
    }
  }

  lemma {:induction false} EscapedBytesAreAscii(s: JsString, n: nat)
    requires EscapedBytes(s, n).Some?
    ensures forall k | 0 <= k < 3 * n :: s[k] < 0x80
  {
    if n == 0 {
    } else {
      EscapedBytesAreAscii(s[3..], n - 1);
      forall k | 0 <= k < 3 * n ensures s[k] < 0x80 {
        assert k >= 3 ==> s[k] == s[3..][k - 3];
      }
    }
  }

  lemma EscapeIsAscii(s: JsString, n: nat)
    requires s != [] && s[0] == PERCENT && DecodeFirst(s).Some? && DecodeFirst(s).value.1 == n
    ensures n % 3 == 0 && EscapedBytes(s, n / 3).Some? && FromUtf8(EscapedBytes(s, n / 3).value).Some?
    ensures DecodeFirst(s).value.0 == Utf16(FromUtf8(EscapedBytes(s, n / 3).value).value)
    ensures forall k | 0 <= k < n :: s[k] < 0x80
  {
    EscapedBytesAreAscii(s, n / 3);
  }

  lemma {:induction false} AsciiPrefix(s: JsString, n: nat)
    requires n <= |s| && forall k | 0 <= k < n :: s[k] < 0x80
    ensures WellFormed(s) <==> WellFormed(s[n..])
  {
    if n == 0 {
      assert s[0..] == s;
    } else {
      assert FirstPoint(s) == Some((s[0], 1));
      forall k | 0 <= k < n - 1 ensures s[1..][k] < 0x80 {
        assert s[1..][k] == s[k + 1];
      }
      AsciiPrefix(s[1..], n - 1);
      assert s[1..][n - 1..] == s[n..];
    }
  }

  lemma PointInFront(p: Scalar, rest: JsString)
    ensures WellFormed(Utf16(p) + rest) <==> WellFormed(rest)
  {
    Utf16FirstPoint(p, rest);
  }

  lemma EscapeKeepsForm(s: JsString)
    requires s != [] && s[0] == PERCENT && DecodeComponent(s).Some?
    ensures var n := DecodeFirst(s).value.1;
      && DecodeComponent(s[n..]).Some?
      && (WellFormed(s) <==> WellFormed(s[n..]))
      && (WellFormed(DecodeComponent(s).value) <==> WellFormed(DecodeComponent(s[n..]).value))
  {
    var n := DecodeFirst(s).value.1;
    EscapeIsAscii(s, n);
    AsciiPrefix(s, n);
    PointInFront(FromUtf8(EscapedBytes(s, n / 3).value).value, DecodeComponent(s[n..]).value);
  }

  lemma StrictUnit(s: JsString)
    requires s != [] && s[0] != PERCENT
    ensures var rest := DecodeComponent(s[1..]);
      DecodeComponent(s) == if rest.None? then None else Some([s[0]] + rest.value)
  {
    assert DecodeFirst(s) == Some(([s[0]], 1));
  }

  lemma TwoInFront(a: CodeUnit, b: CodeUnit, rest: JsString)
    ensures [a] + ([b] + rest) == [a, b] + rest
  {
  }

  lemma StrictPair(s: JsString)
    requires |s| > 1 && s[0] != PERCENT && s[1] != PERCENT
    ensures var rest := DecodeComponent(s[2..]);
      DecodeComponent(s) == if rest.None? then None else Some([s[0], s[1]] + rest.value)
  {
    StrictUnit(s);
    StrictUnit(s[1..]);
    assert s[1..][1..] == s[2..];
    if DecodeComponent(s[2..]).Some? {
      TwoInFront(s[0], s[1], DecodeComponent(s[2..]).value);
    }
  }

  lemma StrictPoint(s: JsString)
    requires s != [] && s[0] != PERCENT && FirstPoint(s).Some?
    ensures var (p, n) := FirstPoint(s).value; var rest := DecodeComponent(s[n..]);
      DecodeComponent(s) == if rest.None? then None else Some(Utf16(p) + rest.value)
  {
    var (p, n) := FirstPoint(s).value;
    FirstPointIsUtf16(s);
    if n == 1 {
      StrictUnit(s);
      assert Utf16(p) == [s[0]];
    } else {
      StrictPair(s);
      assert Utf16(p) == [s[0], s[1]];
    }
  }

  lemma PlainKeepsForm(s: JsString)
    requires s != [] && s[0] != PERCENT && FirstPoint(s).Some? && DecodeComponent(s).Some?
    ensures var n := FirstPoint(s).value.1;
      && DecodeComponent(s[n..]).Some?
      && (WellFormed(s) <==> WellFormed(s[n..]))
      && (WellFormed(DecodeComponent(s).value) <==> WellFormed(DecodeComponent(s[n..]).value))
  {
    var (p, n) := FirstPoint(s).value;
    StrictPoint(s);
    FirstPointIsUtf16(s);
    assert s[..n] == Utf16(p);
    PointInFront(p, DecodeComponent(s[n..]).value);
  }

  /** No escape decodes to a trail surrogate, so nothing completes a lone lead. */
  lemma LoneStaysLone(s: JsString)
    requires s != [] && s[0] != PERCENT && FirstPoint(s).None? && DecodeComponent(s).Some?
    ensures !WellFormed(DecodeComponent(s).value)
  {
    StrictUnit(s);
    if IsLead(s[0]) && |s| > 1 {
      if s[1] == PERCENT {
        EscapeIsAscii(s[1..], DecodeFirst(s[1..]).value.1);
        assert !IsTrail(DecodeComponent(s[1..]).value[0]);
      } else {
        StrictUnit(s[1..]);
      }
    }
  }

  /** A decoded string has lone surrogates exactly when the string has: escapes neither make nor mend them. */
  lemma {:induction false} DecodedWellFormedExact(s: JsString)
    requires DecodeComponent(s).Some?
    ensures WellFormed(DecodeComponent(s).value) <==> WellFormed(s)
  {
    if s == [] {
    } else if s[0] == PERCENT {
      EscapeKeepsForm(s);
      DecodedWellFormedExact(s[DecodeFirst(s).value.1..]);
    } else if FirstPoint(s).Some? {
      var n := FirstPoint(s).value.1;
      PlainKeepsForm(s);
      DecodedWellFormedExact(s[n..]);
    } else {
      LoneStaysLone(s);
    }
  }
}
