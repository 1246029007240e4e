/**
 JavaScript strings are sequences of 16-bit code units. Code points are read from
 them as in UTF-16 and written to bytes as in UTF-8 (section 3 of RFC 3629).
 */
module Unicode {
  import opened Wrappers

  type CodeUnit = x: int | 0 <= x < 0x1_0000
  type JsString = seq<CodeUnit>
  type Byte = x: int | 0 <= x < 0x100

  /** A Unicode scalar value: a code point that is not a surrogate. */
  predicate IsScalar(p: int) {
    0 <= p < 0xD800 || 0xE000 <= p < 0x11_0000
  }

  type Scalar = p: int | 0 <= p < 0xD800 || 0xE000 <= p < 0x11_0000

  predicate IsLead(c: CodeUnit) { 0xD800 <= c < 0xDC00 }

  predicate IsTrail(c: CodeUnit) { 0xDC00 <= c < 0xE000 }

  /** The code point of a surrogate pair. */
  function FromPair(lead: int, trail: int): (p: int)
    ensures 0xD800 <= lead < 0xDC00 && 0xDC00 <= trail < 0xE000 ==> 0x1_0000 <= p < 0x11_0000
  {
    (lead - 0xD800) * 0x400 + (trail - 0xDC00) + 0x1_0000
  }

  /** The first code point of a string and the number of units it takes; none for a lone surrogate. */
  function FirstPoint(s: JsString): (r: Option<(Scalar, nat)>)
    requires s != []
    ensures r.Some? ==> 1 <= r.value.1 <= 2 && r.value.1 <= |s|
  {
    if IsLead(s[0]) && |s| > 1 && IsTrail(s[1]) then
      Some((FromPair(s[0], s[1]), 2))
    else if IsLead(s[0]) || IsTrail(s[0]) then None
    else Some((s[0], 1))
  }

  function Utf16(p: Scalar): JsString {
    if p < 0x1_0000 then
      var unit: CodeUnit := p;
      [unit]
    else
      var lead: CodeUnit, trail: CodeUnit := 0xD800 + (p - 0x1_0000) / 0x400, 0xDC00 + (p - 0x1_0000) % 0x400;
      [lead, trail]
  }

  /** No lone surrogates. */
  predicate WellFormed(s: JsString) {
    s == [] || (FirstPoint(s).Some? && WellFormed(s[FirstPoint(s).value.1..]))
  }

  lemma FirstPointIsUtf16(s: JsString)
    requires s != [] && FirstPoint(s).Some?
    ensures s == Utf16(FirstPoint(s).value.0) + s[FirstPoint(s).value.1..]
  {
  }

  lemma Utf16FirstPoint(p: Scalar, rest: JsString)
    ensures FirstPoint(Utf16(p) + rest) == Some((p, |Utf16(p)|))
    ensures (Utf16(p) + rest)[|Utf16(p)|..] == rest
  {
  }

  // ------------------------------------------------------------------------
  // UTF-8
  // ------------------------------------------------------------------------

  function Utf8(p: Scalar): (bytes: seq<Byte>)
    ensures 1 <= |bytes| <= 4
  {
    var last: Byte := 0x80 + p % 0x40;
    var third: Byte := 0x80 + p / 0x40 % 0x40;
    var second: Byte := 0x80 + p / 0x1000 % 0x40;
    if p < 0x80 then
      var only: Byte := p;
      [only]
    else if p < 0x800 then
      var first: Byte := 0xC0 + p / 0x40;
      [first, last]
    else if p < 0x1_0000 then
      var first: Byte := 0xE0 + p / 0x1000;
      [first, third, last]
    else
      var first: Byte := 0xF0 + p / 0x4_0000;
      [first, second, third, last]
  }

  /** The number of bytes the first byte announces; none for a continuation byte or an unused one. */
  function SequenceLength(b: Byte): Option<nat> {
    if b < 0x80 then Some(1)
    else if b < 0xC0 then None
    else if b < 0xE0 then Some(2)
    else if b < 0xF0 then Some(3)
    else if b < 0xF8 then Some(4)
    else None
  }

  predicate IsContinuation(b: Byte) { 0x80 <= b < 0xC0 }

  /** The number spelled by the payload bits of a sequence. */
  function Payload(bytes: seq<int>): int
    requires 1 <= |bytes| <= 4
  {
    if |bytes| == 1 then bytes[0]
    else if |bytes| == 2 then (bytes[0] - 0xC0) * 0x40 + (bytes[1] - 0x80)
    else if |bytes| == 3 then (bytes[0] - 0xE0) * 0x1000 + (bytes[1] - 0x80) * 0x40 + (bytes[2] - 0x80)
    else (bytes[0] - 0xF0) * 0x4_0000 + (bytes[1] - 0x80) * 0x1000 + (bytes[2] - 0x80) * 0x40 + (bytes[3] - 0x80)
  }

  /** The least code point that needs this many bytes. */
  function LeastOfLength(n: int): int {
    if n == 1 then 0 else if n == 2 then 0x80 else if n == 3 then 0x800 else 0x1_0000
  }

  /** Decodes one whole sequence, refusing overlong forms, surrogates and values above U+10FFFF. */
  function FromUtf8(bytes: seq<Byte>): Option<Scalar> {
    if bytes == [] || SequenceLength(bytes[0]) != Some(|bytes|) then None
    else if !(forall k | 1 <= k < |bytes| :: IsContinuation(bytes[k])) then None
    else
      var p := Payload(bytes);
      if LeastOfLength(|bytes|) <= p && IsScalar(p) then Some(p) else None
  }

  lemma TwoByteRoundTrip(p: Scalar)
    requires 0x80 <= p < 0x800
    ensures FromUtf8(Utf8(p)) == Some(p) && SequenceLength(Utf8(p)[0]) == Some(|Utf8(p)|)
  {
  }

  lemma ThreeByteRoundTrip(p: Scalar)
    requires 0x800 <= p < 0x1_0000
    ensures FromUtf8(Utf8(p)) == Some(p) && SequenceLength(Utf8(p)[0]) == Some(|Utf8(p)|)
  {
    assert p / 0x40 == p / 0x1000 * 0x40 + p / 0x40 % 0x40;
  }

  lemma FourByteRoundTrip(p: Scalar)
    requires 0x1_0000 <= p
    ensures FromUtf8(Utf8(p)) == Some(p) && SequenceLength(Utf8(p)[0]) == Some(|Utf8(p)|)
  {
    assert p / 0x40 == p / 0x1000 * 0x40 + p / 0x40 % 0x40;
    assert p / 0x1000 == p / 0x4_0000 * 0x40 + p / 0x1000 % 0x40;
  }

  /** Decoding undoes encoding, and the first byte announces the length. */
  lemma Utf8RoundTrip(p: Scalar)
    ensures FromUtf8(Utf8(p)) == Some(p)
    ensures SequenceLength(Utf8(p)[0]) == Some(|Utf8(p)|)
  {
    if p < 0x80 {
    } else if p < 0x800 {
      TwoByteRoundTrip(p);
    } else if p < 0x1_0000 {
      ThreeByteRoundTrip(p);
    } else {
      FourByteRoundTrip(p);
    }
  }

  /** The bits of a code point as RFC 3629 lays them out. */
  lemma Utf8Exact(p: Scalar)
    ensures var b: seq<int> := Utf8(p);
      if p < 0x80 then b == [p]
      else if p < 0x800 then
        && |b| == 2 && b[0] / 0x20 == 6 && b[1] / 0x40 == 2
        && p == b[0] % 0x20 * 0x40 + b[1] % 0x40
      else if p < 0x1_0000 then
        && |b| == 3 && b[0] / 0x10 == 0xE && b[1] / 0x40 == 2 && b[2] / 0x40 == 2
        && p == b[0] % 0x10 * 0x1000 + b[1] % 0x40 * 0x40 + b[2] % 0x40
      else
        && |b| == 4 && b[0] / 8 == 0x1E && b[1] / 0x40 == 2 && b[2] / 0x40 == 2 && b[3] / 0x40 == 2
        && p == b[0] % 8 * 0x4_0000 + b[1] % 0x40 * 0x1000 + b[2] % 0x40 * 0x40 + b[3] % 0x40
  {
    Utf8RoundTrip(p);
  }

  lemma TwoBytes(a: Byte, b: Byte, p: Scalar)
    requires FromUtf8([a, b]) == Some(p)
    ensures Utf8(p) == [a, b]
  {
    assert p == (a - 0xC0) * 0x40 + (b - 0x80) && IsContinuation([a, b][1]);
  }

  lemma ThreeBytes(a: Byte, b: Byte, c: Byte, p: Scalar)
    requires FromUtf8([a, b, c]) == Some(p)
    ensures Utf8(p) == [a, b, c]
  {
    assert IsContinuation([a, b, c][1]) && IsContinuation([a, b, c][2]);
    assert p == (a - 0xE0) * 0x1000 + (b - 0x80) * 0x40 + (c - 0x80);
    assert p / 0x40 == (a - 0xE0) * 0x40 + (b - 0x80);
  }

  lemma FourBytes(a: Byte, b: Byte, c: Byte, d: Byte, p: Scalar)
    requires FromUtf8([a, b, c, d]) == Some(p)
    ensures Utf8(p) == [a, b, c, d]
  {
    assert IsContinuation([a, b, c, d][1]) && IsContinuation([a, b, c, d][2]) && IsContinuation([a, b, c, d][3]);
    assert p == (a - 0xF0) * 0x4_0000 + (b - 0x80) * 0x1000 + (c - 0x80) * 0x40 + (d - 0x80);
    assert p / 0x40 == (a - 0xF0) * 0x1000 + (b - 0x80) * 0x40 + (c - 0x80);
    assert p / 0x1000 == (a - 0xF0) * 0x40 + (b - 0x80);
  }

  /** Only the encoding of a code point decodes to it. */
  lemma FromUtf8Exact(bytes: seq<Byte>, p: Scalar)
    ensures FromUtf8(bytes) == Some(p) <==> bytes == Utf8(p)
  {
    Utf8RoundTrip(p);
    if FromUtf8(bytes) == Some(p) {
      if |bytes| == 2 {
        assert bytes == [bytes[0], bytes[1]];
        TwoBytes(bytes[0], bytes[1], p);
      } else if |bytes| == 3 {
        assert bytes == [bytes[0], bytes[1], bytes[2]];
        ThreeBytes(bytes[0], bytes[1], bytes[2], p);
      } else if |bytes| == 4 {
        assert bytes == [bytes[0], bytes[1], bytes[2], bytes[3]];
        FourBytes(bytes[0], bytes[1], bytes[2], bytes[3], p);
      }
    }
  }

  // ------------------------------------------------------------------------
  // Well-formedness of parts
  // ------------------------------------------------------------------------

  lemma {:induction false} WellFormedAppend(a: JsString, b: JsString)
    requires WellFormed(a) && WellFormed(b)
    ensures WellFormed(a + b)
  {
    if a == [] {
      assert a + b == b;
    } else {
      var n := FirstPoint(a).value.1;
      assert (a + b)[n..] == a[n..] + b;
      WellFormedAppend(a[n..], b);
    }
  }

  /** Cutting a well-formed string at a unit that is no surrogate leaves well-formed pieces. */
  lemma {:induction false} WellFormedCut(s: JsString, k: nat)
    requires WellFormed(s) && k < |s| && !IsLead(s[k]) && !IsTrail(s[k])
    ensures WellFormed(s[..k]) && WellFormed(s[k + 1..])
  {
    if k == 0 {
      assert FirstPoint(s).value.1 == 1;
    } else {
      var n := FirstPoint(s).value.1;
      assert n <= k;
      WellFormedCut(s[n..], k - n);
      assert s[n..][..k - n] == s[..k][n..];
      assert s[n..][k - n + 1..] == s[k + 1..];
      assert FirstPoint(s[..k]) == FirstPoint(s);
    }
  }
}
