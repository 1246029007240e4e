/**
 The back end's own printer and parser of canonical URIs, which the front end's must
 stay in sync with. They work on UTF-8 bytes: the encoder escapes every byte that is not
 a letter or digit, and the decoder leaves a percent sign alone that starts no escape.
 */
module RustPaths {
  import opened Wrappers
  import opened Unicode
  import opened PercentEncoding
  import opened CanonicalUris

  // ------------------------------------------------------------------------
  // Encoding
  // ------------------------------------------------------------------------

  /** The UTF-8 form of a string. */
  function Utf8Bytes(s: JsString): seq<Byte>
    requires WellFormed(s)
  {
    if s == [] then []
    else
      var (p, n) := FirstPoint(s).value;
      Utf8(p) + Utf8Bytes(s[n..])
  }

  function EncodeBytes(bytes: seq<Byte>, keepSlash: bool): JsString {
    if bytes == [] then []
    else (if Kept(bytes[0], keepSlash) then [bytes[0]] else Escape(bytes[0])) + EncodeBytes(bytes[1..], keepSlash)
  }

  /** `replace("%2F", "/")` and, for the other last letter, `replace("%2f", "/")`. */
  function RestoreSlash(s: JsString, last: CodeUnit): JsString {
    if s == [] then []
    else if |s| >= 3 && s[0] == PERCENT && s[1] == 0x32 && s[2] == last then [SLASH] + RestoreSlash(s[3..], last)
    else [s[0]] + RestoreSlash(s[1..], last)
  }

  function RustEncodeNoSlash(s: JsString): JsString
    requires WellFormed(s)
  {
    EncodeBytes(Utf8Bytes(s), false)
  }

  function RustEncodePreserveSlash(s: JsString): JsString
    requires WellFormed(s)
  {
    RestoreSlash(RestoreSlash(EncodeBytes(Utf8Bytes(s), false), 0x46), 0x66)
  }

  lemma {:induction false} EncodeBytesAppend(a: seq<Byte>, b: seq<Byte>, keepSlash: bool)
    ensures EncodeBytes(a + b, keepSlash) == EncodeBytes(a, keepSlash) + EncodeBytes(b, keepSlash)
  {
    if a == [] {
      assert a + b == b;
    } else {
      assert (a + b)[1..] == a[1..] + b;
      EncodeBytesAppend(a[1..], b, keepSlash);
    }
  }

  lemma {:induction false} HighBytesEscaped(bytes: seq<Byte>, keepSlash: bool)
    requires forall i | 0 <= i < |bytes| :: bytes[i] >= 0x80
    ensures EncodeBytes(bytes, keepSlash) == EscapeAll(bytes)
  {
    if bytes == [] {
    } else {
      HighBytesEscaped(bytes[1..], keepSlash);
    }
  }

  lemma Utf8Shape(p: Scalar)
    ensures p < 0x80 ==> Utf8(p) == [p]
    ensures p >= 0x80 ==> forall i | 0 <= i < |Utf8(p)| :: Utf8(p)[i] >= 0x80
    ensures !IsContinuation(Utf8(p)[0])
  {
  }

  lemma EncodePoint(p: Scalar, keepSlash: bool)
    ensures EncodeBytes(Utf8(p), keepSlash) == if p < 0x80 && Kept(p, keepSlash) then [p] else EscapeAll(Utf8(p))
  {
    Utf8Shape(p);
    if p >= 0x80 {
      HighBytesEscaped(Utf8(p), keepSlash);
    } else {
      assert EncodeBytes([p], keepSlash) ==
        (if Kept(p, keepSlash) then [p] else Escape(p)) + EncodeBytes([], keepSlash);
      assert EscapeAll([p]) == Escape(p) + EscapeAll([]);
    }
  }

  /** Byte by byte is code point by code point. */
  lemma {:induction false} EncodeBytesIsStrict(s: JsString, keepSlash: bool)
    requires WellFormed(s)
    ensures EncodeBytes(Utf8Bytes(s), keepSlash) == Encoded(s, keepSlash)
  {
    if s == [] {
    } else {
      var (p, n) := FirstPoint(s).value;
      EncodeBytesAppend(Utf8(p), Utf8Bytes(s[n..]), keepSlash);
      EncodePoint(p, keepSlash);
      EncodeBytesIsStrict(s[n..], keepSlash);
    }
  }

  lemma RestoreOther(c: CodeUnit, rest: JsString, last: CodeUnit)
    requires c != PERCENT
    ensures RestoreSlash([c] + rest, last) == [c] + RestoreSlash(rest, last)
  {
    assert ([c] + rest)[0] == c && ([c] + rest)[1..] == rest;
  }

  lemma RestoreEscape(b: Byte, rest: JsString, last: CodeUnit)
    requires last == 0x46 || last == 0x66
    ensures RestoreSlash(Escape(b) + rest, last) ==
      (if b == 0x2F && last == 0x46 then [SLASH] else Escape(b)) + RestoreSlash(rest, last)
  {
    var s, high, low := Escape(b) + rest, HexDigit(b / 16), HexDigit(b % 16);
    assert s[0] == PERCENT && s[1] == high && s[2] == low && s[3..] == rest;
    if high == 0x32 && low == last {
      assert b / 16 == 2 && b % 16 == 15;
    } else {
      assert s[1..] == [high] + ([low] + rest);
      RestoreOther(high, [low] + rest, last);
      RestoreOther(low, rest, last);
    }
  }

  /** The first replacement turns exactly the escaped slashes back. */
  lemma {:induction false} RestoreUpper(bytes: seq<Byte>)
    ensures RestoreSlash(EncodeBytes(bytes, false), 0x46) == EncodeBytes(bytes, true)
  {
    if bytes == [] {
    } else {
      var b, rest := bytes[0], EncodeBytes(bytes[1..], false);
      RestoreUpper(bytes[1..]);
      if IsAlnum(b) {
        RestoreOther(b, rest, 0x46);
      } else {
        RestoreEscape(b, rest, 0x46);
      }
    }
  }

  /** The second finds nothing, because escapes have capital letters. */
  lemma {:induction false} RestoreLower(bytes: seq<Byte>)
    ensures RestoreSlash(EncodeBytes(bytes, true), 0x66) == EncodeBytes(bytes, true)
  {
    if bytes == [] {
    } else {
      var b, rest := bytes[0], EncodeBytes(bytes[1..], true);
      RestoreLower(bytes[1..]);
      if Kept(b, true) {
        RestoreOther(b, rest, 0x66);
      } else {
        RestoreEscape(b, rest, 0x66);
      }
    }
  }

  /** Both encoders agree with the front end's on every string the back end can hold. */
  lemma EncodersAgree(s: JsString)
    requires WellFormed(s)
    ensures EncodeNoSlash(s) == Some(RustEncodeNoSlash(s))
    ensures EncodePreserveSlash(s) == Some(RustEncodePreserveSlash(s))
  {
    EncodeNoSlashIsStrict(s);
    EncodePreserveSlashIsStrict(s);
    EncodeBytesIsStrict(s, false);
    EncodeBytesIsStrict(s, true);
    RestoreUpper(Utf8Bytes(s));
    RestoreLower(Utf8Bytes(s));
  }

  function RustToCanonicalUri(loc: S3Location): JsString
    requires Printable(loc)
  {
    SCHEME + loc.profileId + [SLASH] + RustEncodeNoSlash(loc.bucket)
    + [SLASH] + RustEncodePreserveSlash(loc.KeyOrPrefix())
  }

  /** The two printers agree on every location both can hold. */
  lemma PrintersAgree(loc: S3Location)
    requires Printable(loc)
    ensures ToCanonicalUri(loc) == Some(RustToCanonicalUri(loc))
  {
    EncodersAgree(loc.bucket);
    EncodersAgree(loc.KeyOrPrefix());
  }

  // ------------------------------------------------------------------------
  // Decoding
  // ------------------------------------------------------------------------

  /** `percent_decode_str`: escapes become bytes, everything else stays. */
  function PercentDecode(bytes: seq<Byte>): seq<Byte> {
    if bytes == [] then []
    else if EscapedByte(bytes).Some? then [EscapedByte(bytes).value] + PercentDecode(bytes[3..])
    else [bytes[0]] + PercentDecode(bytes[1..])
  }

  /** `decode_utf8`: the string these bytes spell, if they are UTF-8. */
  function DecodeUtf8(bytes: seq<Byte>): Option<JsString> {
    if bytes == [] then Some([])
    else if SequenceLength(bytes[0]).None? || SequenceLength(bytes[0]).value > |bytes| then None
    else
      var n := SequenceLength(bytes[0]).value;
      var p, rest := FromUtf8(bytes[..n]), DecodeUtf8(bytes[n..]);
      if p.None? || rest.None? then None else Some(Utf16(p.value) + rest.value)
  }

  function RawBytes(s: JsString): seq<Byte>
    requires WellFormed(s)
  {
    PercentDecode(Utf8Bytes(s))
  }

  function RustDecode(s: JsString): Option<JsString>
    requires WellFormed(s)
  {
    DecodeUtf8(RawBytes(s))
  }

  /** Every percent sign starts an escape. */
  predicate WellEscaped(s: JsString) {
    s == [] ||
    if s[0] == PERCENT then EscapedByte(s).Some? && WellEscaped(s[3..]) else WellEscaped(s[1..])
  }

  lemma {:induction false} PlainBytesStay(a: seq<Byte>, b: seq<Byte>)
    requires forall i | 0 <= i < |a| :: a[i] != PERCENT
    ensures PercentDecode(a + b) == a + PercentDecode(b)
  {
    if a == [] {
      assert a + b == b;
    } else {
      assert (a + b)[0] == a[0] && (a + b)[1..] == a[1..] + b;
      PlainBytesStay(a[1..], b);
    }
  }

  lemma RawPlain(s: JsString)
    requires WellFormed(s) && s != [] && s[0] != PERCENT
    ensures var (p, n) := FirstPoint(s).value; RawBytes(s) == Utf8(p) + RawBytes(s[n..])
  {
    var (p, n) := FirstPoint(s).value;
    Utf8Shape(p);
    PlainBytesStay(Utf8(p), Utf8Bytes(s[n..]));
  }

  lemma AsciiInFront(s: JsString)
    requires WellFormed(s) && s != [] && s[0] < 0x80
    ensures WellFormed(s[1..]) && Utf8Bytes(s) == [s[0]] + Utf8Bytes(s[1..])
  {
    Utf8Shape(s[0]);
  }

  lemma ThreeInFront(a: Byte, b: Byte, c: Byte, rest: seq<Byte>)
    ensures [a] + ([b] + ([c] + rest)) == [a, b, c] + rest
  {
  }

  lemma EscapeBytes(s: JsString)
    requires WellFormed(s) && EscapedByte(s).Some?
    ensures WellFormed(s[3..]) && Utf8Bytes(s) == [s[0], s[1], s[2]] + Utf8Bytes(s[3..])
  {
    AsciiInFront(s);
    AsciiInFront(s[1..]);
    assert s[1..][1..] == s[2..];
    AsciiInFront(s[2..]);
    assert s[2..][1..] == s[3..];
    ThreeInFront(s[0], s[1], s[2], Utf8Bytes(s[3..]));
  }

  lemma RawEscape(s: JsString)
    requires WellFormed(s) && EscapedByte(s).Some?
    ensures WellFormed(s[3..]) && RawBytes(s) == [EscapedByte(s).value] + RawBytes(s[3..])
  {
    EscapeBytes(s);
    var bytes := Utf8Bytes(s);
    assert bytes[0] == s[0] && bytes[1] == s[1] && bytes[2] == s[2] && bytes[3..] == Utf8Bytes(s[3..]);
  }

  lemma BehindEscapes(s: JsString, n: nat)
    requires 0 < n && 3 * n <= |s|
    ensures s[3..][3 * (n - 1)..] == s[3 * n..]
  {
  }

  lemma LongerRun(b: Byte, later: seq<Byte>, rest: seq<Byte>)
    ensures [b] + (later + rest) == ([b] + later) + rest
  {
  }

  lemma {:induction false} RawEscapes(s: JsString, n: nat)
    requires WellFormed(s) && EscapedBytes(s, n).Some?
    ensures WellFormed(s[3 * n..]) && RawBytes(s) == EscapedBytes(s, n).value + RawBytes(s[3 * n..])
    decreases n
  {
    if n == 0 {
      assert s[0..] == s;
    } else {
      var b, later := EscapedByte(s).value, EscapedBytes(s[3..], n - 1).value;
      RawEscape(s);
      RawEscapes(s[3..], n - 1);
      BehindEscapes(s, n);
      LongerRun(b, later, RawBytes(s[3 * n..]));
    }
  }

  lemma {:induction false} EscapesAreWell(s: JsString, n: nat)
    requires EscapedBytes(s, n).Some?
    ensures WellEscaped(s) <==> WellEscaped(s[3 * n..])
    decreases n
  {
    if n == 0 {
      assert s[0..] == s;
    } else {
      EscapesAreWell(s[3..], n - 1);
      BehindEscapes(s, n);
    }
  }

  /** When a run of escapes ends early, so do the continuation bytes. */
  lemma {:induction false} RunEndsEarly(s: JsString, n: nat) returns (k: nat)
    requires WellFormed(s) && WellEscaped(s) && EscapedBytes(s, n).None?
    ensures k < n && k <= |RawBytes(s)| && (k < |RawBytes(s)| ==> !IsContinuation(RawBytes(s)[k]))
    ensures s != [] && s[0] == PERCENT ==> k > 0
    decreases n
  {
    if s == [] {
      k := 0;
    } else if s[0] != PERCENT {
      RawPlain(s);
      Utf8Shape(FirstPoint(s).value.0);
      k := 0;
    } else {
      RawEscape(s);
      var rest := RunEndsEarly(s[3..], n - 1);
      k := rest + 1;
    }
  }

  lemma DecodeWhole(bytes: seq<Byte>, rest: seq<Byte>)
    requires bytes != [] && SequenceLength(bytes[0]) == Some(|bytes|)
    ensures DecodeUtf8(bytes + rest) ==
      if FromUtf8(bytes).None? || DecodeUtf8(rest).None? then None
      else Some(Utf16(FromUtf8(bytes).value) + DecodeUtf8(rest).value)
  {
    assert (bytes + rest)[..|bytes|] == bytes && (bytes + rest)[|bytes|..] == rest;
  }

  lemma DecodeCutShort(bytes: seq<Byte>, k: nat)
    requires bytes != [] && SequenceLength(bytes[0]).Some? && 0 < k < SequenceLength(bytes[0]).value
    requires k <= |bytes| && (k < |bytes| ==> !IsContinuation(bytes[k]))
    ensures DecodeUtf8(bytes).None?
  {
    var n := SequenceLength(bytes[0]).value;
    if n <= |bytes| {
      assert bytes[..n][k] == bytes[k];
    }
  }

  lemma WellEscapedPoint(s: JsString)
    requires WellFormed(s) && s != [] && s[0] != PERCENT
    ensures WellEscaped(s) <==> WellEscaped(s[FirstPoint(s).value.1..])
  {
    if FirstPoint(s).value.1 == 2 {
      assert s[1] != PERCENT && s[1..][1..] == s[2..];
    }
  }

  /** A complete run of escapes spells one code point or nothing. */
  lemma RunDecodes(s: JsString, n: nat)
    requires WellFormed(s) && EscapedBytes(s, n).Some? && n > 0
    requires SequenceLength(EscapedByte(s).value) == Some(n)
    ensures WellFormed(s[3 * n..])
    ensures var p := FromUtf8(EscapedBytes(s, n).value); var rest := RustDecode(s[3 * n..]);
      RustDecode(s) == if p.None? || rest.None? then None else Some(Utf16(p.value) + rest.value)
  {
    RawEscapes(s, n);
    DecodeWhole(EscapedBytes(s, n).value, RawBytes(s[3 * n..]));
  }

  /** A run of escapes that ends early spells nothing. */
  lemma RunStops(s: JsString, n: nat)
    requires WellFormed(s) && WellEscaped(s) && s != [] && s[0] == PERCENT && EscapedBytes(s, n).None?
    requires SequenceLength(EscapedByte(s).value) == Some(n)
    ensures RustDecode(s).None?
  {
    RawEscape(s);
    var k := RunEndsEarly(s, n);
    DecodeCutShort(RawBytes(s), k);
  }

  lemma NoRun(s: JsString)
    requires WellFormed(s) && EscapedByte(s).Some? && SequenceLength(EscapedByte(s).value).None?
    ensures RustDecode(s).None?
  {
    RawEscape(s);
  }

  lemma StrictStep(s: JsString, units: JsString, n: nat)
    requires s != [] && DecodeFirst(s) == Some((units, n))
    ensures n <= |s|
    ensures var rest := DecodeComponent(s[n..]);
      DecodeComponent(s) == if rest.None? then None else Some(units + rest.value)
  {
  }

  lemma StrictStop(s: JsString)
    requires s != [] && DecodeFirst(s).None?
    ensures DecodeComponent(s).None?
  {
  }

  /** One run of escapes: the strict decoder reads what the lenient one does. */
  lemma StrictRun(s: JsString, n: nat)
    requires s != [] && s[0] == PERCENT && EscapedByte(s).Some? && SequenceLength(EscapedByte(s).value) == Some(n)
    ensures DecodeComponent(s) ==
      if EscapedBytes(s, n).None? || FromUtf8(EscapedBytes(s, n).value).None? then None
      else
        var units, rest := Utf16(FromUtf8(EscapedBytes(s, n).value).value), DecodeComponent(s[3 * n..]);
        if rest.None? then None else Some(units + rest.value)
  {
    FirstOfRun(s, n);
    if DecodeFirst(s).Some? {
      StrictStep(s, DecodeFirst(s).value.0, 3 * n);
    } else {
      StrictStop(s);
    }
  }

  /** Where every percent sign starts an escape, the decoders agree. */
  lemma {:induction false} DecodersAgree(s: JsString)
    requires WellFormed(s) && WellEscaped(s)
    ensures RustDecode(s) == DecodeComponent(s)
    decreases |s|
  {
    if s == [] {
    } else if s[0] != PERCENT {
      var (p, n) := FirstPoint(s).value;
      WellEscapedPoint(s);
      DecodersAgree(s[n..]);
      StrictPoint(s);
      RawPlain(s);
      Utf8RoundTrip(p);
      DecodeWhole(Utf8(p), RawBytes(s[n..]));
    } else {
      var length := SequenceLength(EscapedByte(s).value);
      if length.None? {
        NoRun(s);
      } else if EscapedBytes(s, length.value).None? {
        RunStops(s, length.value);
      } else {
        RunDecodes(s, length.value);
        StrictRun(s, length.value);
        EscapesAreWell(s, length.value);
        DecodersAgree(s[3 * length.value..]);
      }
    }
  }

  /** The front end refuses any other percent sign. */
  lemma {:induction false} StrictIsWellEscaped(s: JsString)
    requires WellFormed(s) && DecodeComponent(s).Some?
    ensures WellEscaped(s)
    decreases |s|
  {
    if s == [] {
    } else if s[0] != PERCENT {
      StrictPoint(s);
      WellEscapedPoint(s);
      StrictIsWellEscaped(s[FirstPoint(s).value.1..]);
    } else {
      var n := DecodeFirst(s).value.1 / 3;
      RawEscapes(s, n);
      EscapesAreWell(s, n);
      StrictIsWellEscaped(s[3 * n..]);
    }
  }

  /** The string has a stray percent sign and is UTF-8 all the same when it is left alone. */
  predicate OnlyLenient(s: JsString)
    requires WellFormed(s)
  {
    !WellEscaped(s) && RustDecode(s).Some?
  }

  lemma DecodersAgreeExactly(s: JsString)
    requires WellFormed(s)
    ensures RustDecode(s) == DecodeComponent(s) <==> !OnlyLenient(s)
  {
    if WellEscaped(s) {
      DecodersAgree(s);
    } else if DecodeComponent(s).Some? {
      StrictIsWellEscaped(s);
    }
  }

  // ------------------------------------------------------------------------
  // Parsing
  // ------------------------------------------------------------------------

  /** The part before the first slash, and the part after it (empty when there is none). */
  function CutAtSlash(s: JsString): (r: (JsString, JsString))
    requires WellFormed(s)
    ensures WellFormed(r.0) && WellFormed(r.1)
  {
    var k := SlashIndex(s);
    if k == |s| then
      assert s[..k] == s;
      (s[..k], [])
    else
      WellFormedAround(s, k);
      (s[..k], s[k + 1..])
  }

  /** The location made of three parts, given what the decoder says of the last two. */
  function Assemble(
      profileId: JsString, bucketRaw: JsString, bucket: Option<JsString>, key: Option<JsString>)
      : Result<S3Location, ParseError>
  {
    if profileId == [] then Failure(ParseError("uri", "profile_id must not be empty"))
    else if bucketRaw == [] then Failure(ParseError("uri", "bucket must not be empty"))
    else if bucket.None? then Failure(ParseError("uri", "bucket segment contains invalid percent-encoding"))
    else if key.None? then Failure(ParseError("uri", "key segment contains invalid percent-encoding"))
    else Success(S3Location(profileId, bucket.value, [], if key.value == [] then None else Some(key.value)))
  }

  /** `splitn(3, '/')`, then the checks in order. */
  function RustParseRest(rest: JsString): Result<S3Location, ParseError>
    requires WellFormed(rest)
  {
    var (profileId, afterProfile) := CutAtSlash(rest);
    var (bucketRaw, keyRaw) := CutAtSlash(afterProfile);
    Assemble(profileId, bucketRaw, RustDecode(bucketRaw), RustDecode(keyRaw))
  }

  lemma BehindScheme(uri: JsString)
    requires SCHEME <= uri
    ensures WellFormed(uri) <==> WellFormed(uri[|SCHEME|..])
  {
    forall k | 0 <= k < |SCHEME| ensures uri[k] < 0x80 {
      assert uri[k] == SCHEME[k];
    }
    AsciiPrefix(uri, |SCHEME|);
  }

  function RustFromCanonicalUri(uri: JsString): Result<S3Location, ParseError>
    requires WellFormed(uri)
  {
    if !(SCHEME <= uri) then Failure(ParseError("uri", "URI must begin with brows3r://"))
    else
      BehindScheme(uri);
      RustParseRest(uri[|SCHEME|..])
  }

  lemma PathAssembles(profileId: JsString, bucketRaw: JsString, keyRaw: JsString, afterProfile: JsString)
    requires profileId != [] && bucketRaw == afterProfile[..SlashIndex(afterProfile)]
    requires keyRaw ==
      if SlashIndex(afterProfile) == |afterProfile| then [] else afterProfile[SlashIndex(afterProfile) + 1..]
    ensures ParsePath(profileId, afterProfile) ==
      Assemble(profileId, bucketRaw, DecodeComponent(bucketRaw), DecodeComponent(keyRaw))
  {
  }

  lemma PathInParts(profileId: JsString, afterProfile: JsString)
    requires WellFormed(afterProfile) && profileId != []
    ensures var (bucketRaw, keyRaw) := CutAtSlash(afterProfile);
      ParsePath(profileId, afterProfile) ==
        Assemble(profileId, bucketRaw, DecodeComponent(bucketRaw), DecodeComponent(keyRaw))
  {
    var (bucketRaw, keyRaw) := CutAtSlash(afterProfile);
    PathAssembles(profileId, bucketRaw, keyRaw, afterProfile);
  }

  lemma AuthorityInParts(rest: JsString)
    requires WellFormed(rest) && SLASH in rest
    ensures var (profileId, afterProfile) := CutAtSlash(rest);
      ParseAuthority(rest) ==
        if profileId == [] then Failure(ParseError("uri", "profile_id must not be empty"))
        else ParsePath(profileId, afterProfile)
  {
    assert rest[..|rest|] == rest;
    assert SlashIndex(rest) < |rest|;
  }

  /** The front end assembles the same parts, except that it names the error of an empty rest differently. */
  lemma ParseInParts(rest: JsString)
    requires WellFormed(rest)
    ensures var (profileId, afterProfile) := CutAtSlash(rest); var (bucketRaw, keyRaw) := CutAtSlash(afterProfile);
      ParseAuthority(rest) ==
        if rest == [] then Failure(ParseError("uri", "bucket must not be empty"))
        else Assemble(profileId, bucketRaw, DecodeComponent(bucketRaw), DecodeComponent(keyRaw))
  {
    var (profileId, afterProfile) := CutAtSlash(rest);
    if SLASH in rest {
      AuthorityInParts(rest);
      if profileId != [] {
        PathInParts(profileId, afterProfile);
      }
    } else {
      assert SlashIndex(rest) == |rest|;
      assert rest[..|rest|] == rest;
      assert CutAtSlash([]).0 == [];
    }
  }

  /**
   The front end and the back end agree on a URI with the right scheme, unless nothing
   follows it, or there are a profile and a bucket, and the bucket, or the key behind a
   good bucket, is one that only the lenient decoder accepts.
   */
  predicate InSync(rest: JsString)
    requires WellFormed(rest)
  {
    var (profileId, afterProfile) := CutAtSlash(rest);
    var (bucketRaw, keyRaw) := CutAtSlash(afterProfile);
    && rest != []
    && (profileId != [] && bucketRaw != [] ==>
          !OnlyLenient(bucketRaw) && (RustDecode(bucketRaw).Some? ==> !OnlyLenient(keyRaw)))
  }

  lemma AssembleExact(
      profileId: JsString, bucketRaw: JsString,
      bucket: Option<JsString>, key: Option<JsString>, strictBucket: Option<JsString>, strictKey: Option<JsString>)
    requires bucket == strictBucket || (bucket.Some? && strictBucket.None?)
    requires key == strictKey || (key.Some? && strictKey.None?)
    ensures Assemble(profileId, bucketRaw, bucket, key) == Assemble(profileId, bucketRaw, strictBucket, strictKey) <==>
      (profileId != [] && bucketRaw != [] ==> bucket == strictBucket && (bucket.Some? ==> key == strictKey))
  {
  }

  lemma LenientOrEqual(s: JsString)
    requires WellFormed(s)
    ensures RustDecode(s) == DecodeComponent(s) || (RustDecode(s).Some? && DecodeComponent(s).None?)
    ensures RustDecode(s) == DecodeComponent(s) <==> !OnlyLenient(s)
  {
    DecodersAgreeExactly(s);
    if OnlyLenient(s) && DecodeComponent(s).Some? {
      StrictIsWellEscaped(s);
    }
  }

  lemma RestsAgreeExactly(rest: JsString)
    requires WellFormed(rest)
    ensures RustParseRest(rest) == ParseAuthority(rest) <==> InSync(rest)
  {
    var (profileId, afterProfile) := CutAtSlash(rest);
    var (bucketRaw, keyRaw) := CutAtSlash(afterProfile);
    ParseInParts(rest);
    LenientOrEqual(bucketRaw);
    LenientOrEqual(keyRaw);
    AssembleExact(
      profileId, bucketRaw,
      RustDecode(bucketRaw), RustDecode(keyRaw), DecodeComponent(bucketRaw), DecodeComponent(keyRaw));
  }

  /** The two parsers agree on a URI exactly when it has another scheme or its rest is in sync. */
  lemma ParsersAgreeExactly(uri: JsString)
    requires WellFormed(uri)
    ensures SCHEME <= uri ==> WellFormed(uri[|SCHEME|..])
    ensures RustFromCanonicalUri(uri) == FromCanonicalUri(uri) <==> SCHEME <= uri ==> InSync(uri[|SCHEME|..])
  {
    if SCHEME <= uri {
      BehindScheme(uri);
      RestsAgreeExactly(uri[|SCHEME|..]);
    }
  }

  /** Whatever the front end accepts, the back end reads the same. */
  lemma StrictIsAccepted(uri: JsString)
    requires WellFormed(uri) && FromCanonicalUri(uri).Success?
    ensures RustFromCanonicalUri(uri) == FromCanonicalUri(uri)
  {
    var rest := uri[|SCHEME|..];
    BehindScheme(uri);
    ParseInParts(rest);
    var (profileId, afterProfile) := CutAtSlash(rest);
    var (bucketRaw, keyRaw) := CutAtSlash(afterProfile);
    StrictIsWellEscaped(bucketRaw);
    StrictIsWellEscaped(keyRaw);
    DecodersAgree(bucketRaw);
    DecodersAgree(keyRaw);
  }

  lemma AsciiOnly(s: JsString)
    requires forall k | 0 <= k < |s| :: s[k] < 0x80
    ensures WellFormed(s)
  {
    AsciiPrefix(s, |s|);
  }

  lemma LetterDecodes(c: CodeUnit)
    requires c < 0x80
    ensures WellFormed([c]) && RustDecode([c]) == Some([c])
    ensures DecodeComponent([c]) == if c == PERCENT then None else Some([c])
  {
    AsciiOnly([c]);
    assert Utf8Bytes([c]) == [c] + Utf8Bytes([]);
    assert PercentDecode([c]) == [c] + PercentDecode([]);
    Utf8RoundTrip(c);
    Utf8Shape(c);
    DecodeWhole([c], []);
    assert [c] + [] == [c];
    if c != PERCENT {
      StrictUnit([c]);
    }
  }

  /** Three parts without slashes come apart again. */
  lemma CutThree(p: JsString, b: JsString, k: JsString)
    requires SLASH !in p && SLASH !in b && WellFormed(p + [SLASH] + (b + [SLASH] + k))
    ensures var (profileId, afterProfile) := CutAtSlash(p + [SLASH] + (b + [SLASH] + k));
      profileId == p && CutAtSlash(afterProfile) == (b, k)
  {
    var after := b + [SLASH] + k;
    var rest := p + [SLASH] + after;
    SlashIndexAfter(p, after);
    SlashIndexAfter(b, k);
    assert rest[..|p|] == p && rest[|p| + 1..] == after;
    assert after[..|b|] == b && after[|b| + 1..] == k;
  }

  /** A bare scheme: the two name different errors. */
  lemma EmptyRest()
    ensures ParseAuthority([]) == Failure(ParseError("uri", "bucket must not be empty"))
    ensures RustParseRest([]) == Failure(ParseError("uri", "profile_id must not be empty"))
  {
    assert CutAtSlash([]).0 == [];
  }

  /** "p/b/%": refused by the front end, the key "%" for the back end. */
  lemma StrayPercent()
    ensures var rest: JsString := [0x70] + [SLASH] + ([0x62] + [SLASH] + [PERCENT]);
      && WellFormed(rest)
      && ParseAuthority(rest) == Failure(ParseError("uri", "key segment contains invalid percent-encoding"))
      && RustParseRest(rest) == Success(S3Location([0x70], [0x62], [], Some([PERCENT])))
  {
    var rest: JsString := [0x70] + [SLASH] + ([0x62] + [SLASH] + [PERCENT]);
    AsciiOnly(rest);
    CutThree([0x70], [0x62], [PERCENT]);
    LetterDecodes(0x62);
    LetterDecodes(PERCENT);
    ParseInParts(rest);
  }
}
