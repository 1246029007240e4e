/** Byte ranges: parsing an HTTP `Range` header and printing the one sent on to S3 (section 14.1.2 of RFC 9110). */
module ByteRanges {
  import opened Wrappers
  import opened Integers64

  datatype RangeSpec = Bounded(start: U64, end: U64) | From(start: U64) | Suffix(last: U64)

  // ------------------------------------------------------------------------
  // Numbers
  // ------------------------------------------------------------------------

  predicate IsDigit(c: char) { '0' <= c <= '9' }

  function DigitValue(c: char): (d: int)
    ensures IsDigit(c) ==> 0 <= d <= 9
  {
    c as int - '0' as int
  }

  /** The digit loop of `str::parse::<u64>`: checked multiplication and addition. */
  function ParseDigits(s: string, acc: U64): Option<U64> {
    if s == "" then Some(acc)
    else if !IsDigit(s[0]) || acc * 10 + DigitValue(s[0]) > U64_MAX then None
    else ParseDigits(s[1..], acc * 10 + DigitValue(s[0]))
  }

  /** `str::parse::<u64>`: a leading plus is accepted, an empty string or a bare sign is not. */
  function ParseU64(s: string): Option<U64> {
    if s == "" || s == "+" then None
    else if s[0] == '+' then ParseDigits(s[1..], 0)
    else ParseDigits(s, 0)
  }

  function Decimal(n: nat): (s: string)
    ensures s != "" && forall c | c in s :: IsDigit(c)
  {
    if n < 10 then [('0' as int + n) as char] else Decimal(n / 10) + [('0' as int + n % 10) as char]
  }

  /** The number a string of digits spells. */
  function Value(s: string): nat
    requires forall c | c in s :: IsDigit(c)
  {
    if s == "" then 0
    else
      assert s[|s| - 1] in s && IsDigit(s[|s| - 1]);
      Value(s[..|s| - 1]) * 10 + DigitValue(s[|s| - 1])
  }

  /** Reading a further digit multiplies the value by ten and adds the digit. */
  lemma ValueExact(s: string, c: char)
    requires (forall d | d in s :: '0' <= d <= '9') && '0' <= c <= '9'
    ensures IsDigit(c) && (forall d | d in s + [c] :: IsDigit(d))
    ensures Value(s + [c]) == 10 * Value(s) + (c as int - 48)
    ensures Value([c]) == c as int - 48
  {
    assert (s + [c])[..|s|] == s && [c][..0] == "";
    assert '0' as int == 48;
  }

  /** The digits of a numeral, without its optional plus. */
  function Digits(s: string): string {
    if s != "" && s[0] == '+' then s[1..] else s
  }

  predicate IsNumeral(s: string) {
    Digits(s) != "" && forall c | c in Digits(s) :: IsDigit(c)
  }

  lemma {:induction false} ParseDigitsAppend(s: string, c: char, acc: U64)
    ensures ParseDigits(s + [c], acc) ==
      var before := ParseDigits(s, acc);
      if before.None? || !IsDigit(c) || before.value * 10 + DigitValue(c) > U64_MAX then None
      else Some(before.value * 10 + DigitValue(c))
  {
    if s == "" {
      assert s + [c] == [c] && [c][1..] == "";
    } else {
      assert (s + [c])[1..] == s[1..] + [c];
      if IsDigit(s[0]) && acc * 10 + DigitValue(s[0]) <= U64_MAX {
        ParseDigitsAppend(s[1..], c, acc * 10 + DigitValue(s[0]));
      }
    }
  }

  /** The digit loop succeeds exactly on digits whose value fits. */
  lemma {:induction false} ParseDigitsExact(s: string)
    ensures ParseDigits(s, 0) ==
      if (forall c | c in s :: IsDigit(c)) && Value(s) <= U64_MAX then Some(Value(s)) else None
  {
    if s == "" {
    } else {
      var init, c := s[..|s| - 1], s[|s| - 1];
      assert s == init + [c];
      ParseDigitsExact(init);
      ParseDigitsAppend(init, c, 0);
      assert forall x :: x in s <==> x in init || x == c;
    }
  }

  /** A string parses exactly when it is a numeral whose value is at most 2^64 - 1, and then to that value. */
  lemma ParseU64Exact(s: string)
    ensures ParseU64(s) == if IsNumeral(s) && Value(Digits(s)) <= U64_MAX then Some(Value(Digits(s))) else None
  {
    ParseDigitsExact(Digits(s));
  }

  lemma {:induction false} DecimalValue(n: nat)
    ensures Value(Decimal(n)) == n
  {
    if n >= 10 {
      var s := Decimal(n);
      assert s[..|s| - 1] == Decimal(n / 10);
      DecimalValue(n / 10);
    } else {
      assert Value(Decimal(n)[..0]) == 0;
    }
  }

  lemma ParseDecimal(n: U64)
    ensures ParseU64(Decimal(n)) == Some(n) && '-' !in Decimal(n)
  {
    assert IsDigit(Decimal(n)[0]);
    DecimalValue(n);
    ParseU64Exact(Decimal(n));
  }

  // ------------------------------------------------------------------------
  // Ranges
  // ------------------------------------------------------------------------

  const UNIT := "bytes="

  /** The position of the first dash, or the length. */
  function DashIndex(s: string): (k: nat)
    ensures k <= |s| && '-' !in s[..k]
    ensures k < |s| ==> s[k] == '-'
  {
    if s == "" || s[0] == '-' then 0
    else
      var k := DashIndex(s[1..]);
      assert s[..k + 1] == [s[0]] + s[1..][..k];
      k + 1
  }

  function ParseSpec(spec: string): Option<RangeSpec> {
    if spec != "" && spec[0] == '-' then
      var last := ParseU64(spec[1..]);
      if last.None? then None else Some(Suffix(last.value))
    else
      var dash := DashIndex(spec);
      if dash == |spec| then None
      else
        var start := ParseU64(spec[..dash]);
        var endStr := spec[dash + 1..];
        if start.None? then None
        else if endStr == "" then Some(From(start.value))
        else
          var end := ParseU64(endStr);
          if end.None? then None else Some(Bounded(start.value, end.value))
  }

  function ParseRange(header: string): Option<RangeSpec> {
    if !(UNIT <= header) then None
    else ParseSpec(header[|UNIT|..])
  }

  function RangeSpecToS3(spec: RangeSpec): string {
    match spec
    case Bounded(start, end) => "bytes=" + Decimal(start) + "-" + Decimal(end)
    case From(start) => "bytes=" + Decimal(start) + "-"
    case Suffix(last) => "bytes=-" + Decimal(last)
  }

  /** The two sides of the dash denote the range. */
  predicate Denotes(a: string, b: string, r: RangeSpec) {
    match r
    case Suffix(last) => a == "" && ParseU64(b) == Some(last)
    case From(start) => ParseU64(a) == Some(start) && b == ""
    case Bounded(start, end) => ParseU64(a) == Some(start) && ParseU64(b) == Some(end)
  }

  lemma {:induction false} DashIndexAfter(a: string, b: string)
    requires '-' !in a
    ensures DashIndex(a + "-" + b) == |a|
  {
    if a == "" {
      assert a + "-" + b == "-" + b;
    } else {
      assert (a + "-" + b)[1..] == a[1..] + "-" + b;
      DashIndexAfter(a[1..], b);
    }
  }

  lemma NumeralHasNoDash(s: string)
    requires ParseU64(s).Some?
    ensures s != "" && '-' !in s
  {
    ParseU64Exact(s);
    assert forall c | c in s :: c == '+' || c in Digits(s);
  }

  lemma ParseSides(a: string, b: string, r: RangeSpec)
    requires '-' !in a
    ensures ParseSpec(a + "-" + b) == Some(r) <==> Denotes(a, b, r)
  {
    var spec := a + "-" + b;
    DashIndexAfter(a, b);
    assert spec[..|a|] == a && spec[|a| + 1..] == b;
    if a == "" {
      assert spec[0] == '-' && spec[1..] == b;
    } else {
      assert spec[0] == a[0] && a[0] in a;
    }
  }

  lemma HeaderSides(a: string, b: string, r: RangeSpec)
    requires '-' !in a
    ensures ParseRange(UNIT + a + "-" + b) == Some(r) <==> Denotes(a, b, r)
  {
    var spec := a + "-" + b;
    assert UNIT + a + "-" + b == UNIT + spec;
    assert (UNIT + spec)[|UNIT|..] == spec && UNIT <= UNIT + spec;
    ParseSides(a, b, r);
  }

  lemma DenotedHasNoDash(a: string, b: string, r: RangeSpec)
    requires Denotes(a, b, r)
    ensures '-' !in a
  {
    if a != "" {
      NumeralHasNoDash(a);
    }
  }

  lemma DenotedParses(a: string, b: string, r: RangeSpec)
    requires Denotes(a, b, r)
    ensures ParseRange(UNIT + a + "-" + b) == Some(r)
  {
    DenotedHasNoDash(a, b, r);
    HeaderSides(a, b, r);
  }

  lemma SidesText(a: string, b: string)
    ensures UNIT + a + "-" + "" == "bytes=" + a + "-" && UNIT + "" + "-" + b == "bytes=-" + b
  {
    assert "bytes=" + "" + "-" == "bytes=-";
  }

  /** The text before and after the first dash of an accepted header. */
  lemma AcceptedSides(header: string) returns (a: string, b: string)
    requires ParseRange(header).Some?
    ensures header == UNIT + a + "-" + b && '-' !in a
  {
    var spec := header[|UNIT|..];
    assert header == UNIT + spec;
    var dash := DashIndex(spec);
    a, b := spec[..dash], spec[dash + 1..];
    assert spec == a + "-" + b;
  }

  /**
   A header is accepted exactly when it is `bytes=`, a start, a dash and an end, with
   each side a numeral that fits in 64 bits and at most one of them left out.
   */
  lemma ParseRangeExact(header: string, r: RangeSpec)
    ensures ParseRange(header) == Some(r) <==>
      match r
      case Bounded(start, end) =>
        exists a, b :: header == "bytes=" + a + "-" + b && ParseU64(a) == Some(start) && ParseU64(b) == Some(end)
      case From(start) => exists a :: header == "bytes=" + a + "-" && ParseU64(a) == Some(start)
      case Suffix(last) => exists b :: header == "bytes=-" + b && ParseU64(b) == Some(last)
  {
    if ParseRange(header) == Some(r) {
      var a, b := AcceptedSides(header);
      HeaderSides(a, b, r);
      SidesText(a, b);
    }
    match r {
      case Bounded(start, end) =>
        if a, b :| header == "bytes=" + a + "-" + b && ParseU64(a) == Some(start) && ParseU64(b) == Some(end) {
          DenotedParses(a, b, r);
        }
      case From(start) =>
        if a :| header == "bytes=" + a + "-" && ParseU64(a) == Some(start) {
          DenotedParses(a, "", r);
          SidesText(a, "");
        }
      case Suffix(last) =>
        if b :| header == "bytes=-" + b && ParseU64(b) == Some(last) {
          DenotedParses("", b, r);
          SidesText("", b);
        }
    }
  }

  /** Printing a range and parsing it back gives the range, for every 64-bit range. */
  lemma RangeRoundTrip(r: RangeSpec)
    ensures ParseRange(RangeSpecToS3(r)) == Some(r)
  {
    var sides := match r
      case Bounded(start, end) => (Decimal(start), Decimal(end))
      case From(start) => (Decimal(start), "")
      case Suffix(last) => ("", Decimal(last));
    match r {
      case Bounded(start, end) => ParseDecimal(start); ParseDecimal(end);
      case From(start) => ParseDecimal(start);
      case Suffix(last) => ParseDecimal(last);
    }
    SidesText(sides.0, sides.1);
    assert RangeSpecToS3(r) == UNIT + sides.0 + "-" + sides.1;
    DenotedParses(sides.0, sides.1, r);
  }
}
