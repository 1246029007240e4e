/** The canonical location URI: a fixed scheme, the raw profile id, the encoded bucket and the encoded key. */
module CanonicalUris {
  import opened Wrappers
  import opened Unicode
  import opened PercentEncoding

  /** "brows3r://" */
  const SCHEME: JsString := [0x62, 0x72, 0x6F, 0x77, 0x73, 0x33, 0x72, 0x3A, 0x2F, 0x2F]

  lemma SchemeText()
    ensures |SCHEME| == |"brows3r://"| && forall n | 0 <= n < |SCHEME| :: SCHEME[n] == "brows3r://"[n] as int
  {
    var text := "brows3r://";
    assert text[0] == 'b' && text[1] == 'r' && text[2] == 'o' && text[3] == 'w' && text[4] == 's';
    assert text[5] == '3' && text[6] == 'r' && text[7] == ':' && text[8] == '/' && text[9] == '/';
  }

  datatype S3Location = S3Location(profileId: JsString, bucket: JsString, prefix: JsString, key: Option<JsString>) {
    /** `key ?? prefix` */
    function KeyOrPrefix(): JsString {
      if key.Some? then key.value else prefix
    }
  }

  datatype ParseError = ParseError(field: string, hint: string)

  /** None when a lone surrogate in the bucket or key makes the encoder throw. */
  function ToCanonicalUri(loc: S3Location): Option<JsString> {
    var encodedBucket := EncodeNoSlash(loc.bucket);
    var encodedKey := EncodePreserveSlash(loc.KeyOrPrefix());
    if encodedBucket.None? || encodedKey.None? then None
    else Some(SCHEME + loc.profileId + [SLASH] + encodedBucket.value + [SLASH] + encodedKey.value)
  }

  /** `indexOf("/")`, with the length standing for -1. */
  function SlashIndex(s: JsString): (k: nat)
    ensures k <= |s| && SLASH !in s[..k]
    ensures k < |s| ==> s[k] == SLASH
  {
    if s == [] || s[0] == SLASH then 0
    else
      var k := SlashIndex(s[1..]);
      assert s[..k + 1] == [s[0]] + s[1..][..k];
      k + 1
  }

  /** The bucket, up to the next slash if there is one, and the key. */
  function ParsePath(profileId: JsString, afterProfile: JsString): (r: Result<S3Location, ParseError>)
    ensures r.Success? ==> r.value.profileId == profileId
  {
    var slash := SlashIndex(afterProfile);
    var bucketRaw := afterProfile[..slash];
    var keyRaw := if slash == |afterProfile| then [] else afterProfile[slash + 1..];
    if bucketRaw == [] then Failure(ParseError("uri", "bucket must not be empty"))
    else if DecodeComponent(bucketRaw).None? then
      Failure(ParseError("uri", "bucket segment contains invalid percent-encoding"))
    else if DecodeComponent(keyRaw).None? then
      Failure(ParseError("uri", "key segment contains invalid percent-encoding"))
    else
      var key := DecodeComponent(keyRaw).value;
      Success(S3Location(profileId, DecodeComponent(bucketRaw).value, [], if key == [] then None else Some(key)))
  }

  /** The profile id, up to the first slash. */
  function ParseAuthority(rest: JsString): Result<S3Location, ParseError> {
    var slash := SlashIndex(rest);
    if slash == |rest| then Failure(ParseError("uri", "bucket must not be empty"))
    else if slash == 0 then Failure(ParseError("uri", "profile_id must not be empty"))
    else ParsePath(rest[..slash], rest[slash + 1..])
  }

  function FromCanonicalUri(uri: JsString): Result<S3Location, ParseError> {
    if !(SCHEME <= uri) then Failure(ParseError("uri", "URI must begin with brows3r://"))
    else ParseAuthority(uri[|SCHEME|..])
  }

  // ------------------------------------------------------------------------
  // Printing, then parsing
  // ------------------------------------------------------------------------

  /** The form a location takes after a round trip: the path always in `key`, absent when empty. */
  function Canonical(loc: S3Location): S3Location {
    S3Location(loc.profileId, loc.bucket, [], if loc.KeyOrPrefix() == [] then None else Some(loc.KeyOrPrefix()))
  }

  predicate Printable(loc: S3Location) {
    WellFormed(loc.bucket) && WellFormed(loc.KeyOrPrefix())
  }

  /** A location whose URI can be read back. */
  predicate Addressable(loc: S3Location) {
    loc.profileId != [] && SLASH !in loc.profileId && loc.bucket != []
  }

  lemma PrintedForm(loc: S3Location)
    ensures ToCanonicalUri(loc) ==
      if Printable(loc)
      then Some(SCHEME + loc.profileId + [SLASH] + Encoded(loc.bucket, false)
                + [SLASH] + Encoded(loc.KeyOrPrefix(), true))
      else None
  {
    EncodeNoSlashIsStrict(loc.bucket);
    EncodePreserveSlashIsStrict(loc.KeyOrPrefix());
  }

  lemma {:induction false} SlashIndexAfter(a: JsString, b: JsString)
    requires SLASH !in a
    ensures SlashIndex(a + [SLASH] + b) == |a|
  {
    if a == [] {
      assert a + [SLASH] + b == [SLASH] + b;
    } else {
      assert (a + [SLASH] + b)[1..] == a[1..] + [SLASH] + b;
      SlashIndexAfter(a[1..], b);
    }
  }

  /** A printed URI is parsed from its profile id on. */
  lemma ParsePrinted(profileId: JsString, bucketRaw: JsString, keyRaw: JsString)
    ensures FromCanonicalUri(SCHEME + profileId + [SLASH] + bucketRaw + [SLASH] + keyRaw) ==
            ParseAuthority(profileId + [SLASH] + (bucketRaw + [SLASH] + keyRaw))
  {
    var rest := profileId + [SLASH] + (bucketRaw + [SLASH] + keyRaw);
    assert SCHEME + profileId + [SLASH] + bucketRaw + [SLASH] + keyRaw == SCHEME + rest;
    assert (SCHEME + rest)[|SCHEME|..] == rest && SCHEME <= SCHEME + rest;
  }

  lemma {:induction false} SlashIndexAbsent(s: JsString)
    requires SLASH !in s
    ensures SlashIndex(s) == |s|
  {
    if s == [] {
    } else {
      SlashIndexAbsent(s[1..]);
    }
  }

  lemma ParseAuthorityParts(profileId: JsString, afterProfile: JsString)
    requires SLASH !in profileId
    ensures ParseAuthority(profileId + [SLASH] + afterProfile) ==
      if profileId == [] then Failure(ParseError("uri", "profile_id must not be empty"))
      else ParsePath(profileId, afterProfile)
    ensures ParseAuthority(profileId) == Failure(ParseError("uri", "bucket must not be empty"))
  {
    var rest := profileId + [SLASH] + afterProfile;
    SlashIndexAfter(profileId, afterProfile);
    SlashIndexAbsent(profileId);
    assert rest[..|profileId|] == profileId && rest[|profileId| + 1..] == afterProfile;
  }

  /** What the two encoded parts parse to. */
  function Parsed(profileId: JsString, bucketRaw: JsString, keyRaw: JsString): Result<S3Location, ParseError> {
    if bucketRaw == [] then Failure(ParseError("uri", "bucket must not be empty"))
    else if DecodeComponent(bucketRaw).None? then
      Failure(ParseError("uri", "bucket segment contains invalid percent-encoding"))
    else if DecodeComponent(keyRaw).None? then
      Failure(ParseError("uri", "key segment contains invalid percent-encoding"))
    else if DecodeComponent(keyRaw).value == [] then
      Success(S3Location(profileId, DecodeComponent(bucketRaw).value, [], None))
    else
      Success(S3Location(profileId, DecodeComponent(bucketRaw).value, [], Some(DecodeComponent(keyRaw).value)))
  }

  lemma ParsePathParts(profileId: JsString, bucketRaw: JsString, keyRaw: JsString)
    requires SLASH !in bucketRaw
    ensures ParsePath(profileId, bucketRaw + [SLASH] + keyRaw) == Parsed(profileId, bucketRaw, keyRaw)
    ensures ParsePath(profileId, bucketRaw) == Parsed(profileId, bucketRaw, [])
  {
    var afterProfile := bucketRaw + [SLASH] + keyRaw;
    SlashIndexAfter(bucketRaw, keyRaw);
    SlashIndexAbsent(bucketRaw);
    assert afterProfile[..|bucketRaw|] == bucketRaw && afterProfile[|bucketRaw| + 1..] == keyRaw;
    assert bucketRaw[..|bucketRaw|] == bucketRaw;
  }

  lemma RoundTripAddressable(loc: S3Location)
    requires Printable(loc) && Addressable(loc)
    ensures ToCanonicalUri(loc).Some? && FromCanonicalUri(ToCanonicalUri(loc).value) == Success(Canonical(loc))
  {
    PrintedForm(loc);
    EncodedIsSlashFree(loc.bucket);
    DecodeEncoded(loc.bucket, false);
    DecodeEncoded(loc.KeyOrPrefix(), true);
    var bucketRaw, keyRaw := Encoded(loc.bucket, false), Encoded(loc.KeyOrPrefix(), true);
    ParsePrinted(loc.profileId, bucketRaw, keyRaw);
    ParseAuthorityParts(loc.profileId, bucketRaw + [SLASH] + keyRaw);
    ParsePathParts(loc.profileId, bucketRaw, keyRaw);
  }

  /** A slash in the profile id makes the parser cut it short. */
  lemma CutProfile(profileId: JsString, afterProfile: JsString)
    requires SLASH in profileId
    ensures var r := ParseAuthority(profileId + [SLASH] + afterProfile); r.Success? ==> r.value.profileId != profileId
  {
    var rest := profileId + [SLASH] + afterProfile;
    var slash := SlashIndex(rest);
    var k :| 0 <= k < |profileId| && profileId[k] == SLASH;
    assert forall i | 0 <= i < slash :: rest[i] in rest[..slash];
    assert rest[k] == SLASH && slash <= k;
  }

  /** A URI printed from a location that is not addressable parses to something else, or not at all. */
  lemma NoRoundTrip(loc: S3Location)
    requires Printable(loc) && !Addressable(loc)
    ensures ToCanonicalUri(loc).Some? && FromCanonicalUri(ToCanonicalUri(loc).value) != Success(Canonical(loc))
  {
    PrintedForm(loc);
    var bucketRaw, keyRaw := Encoded(loc.bucket, false), Encoded(loc.KeyOrPrefix(), true);
    var afterProfile := bucketRaw + [SLASH] + keyRaw;
    ParsePrinted(loc.profileId, bucketRaw, keyRaw);
    if SLASH in loc.profileId {
      CutProfile(loc.profileId, afterProfile);
    } else {
      ParseAuthorityParts(loc.profileId, afterProfile);
      if loc.bucket == [] {
        assert bucketRaw == [] && afterProfile == [SLASH] + keyRaw;
      }
    }
  }

  /**
   The round trip law. Printing succeeds exactly for well-formed text, and the URI
   then parses back to the same profile, bucket and path exactly when the profile id
   is non-empty and slash-free and the bucket is non-empty.
   */
  lemma RoundTrip(loc: S3Location)
    ensures ToCanonicalUri(loc).Some? <==> Printable(loc)
    ensures Printable(loc) ==>
      (FromCanonicalUri(ToCanonicalUri(loc).value) == Success(Canonical(loc)) <==> Addressable(loc))
  {
    PrintedForm(loc);
    if Printable(loc) {
      if Addressable(loc) {
        RoundTripAddressable(loc);
      } else {
        NoRoundTrip(loc);
      }
    }
  }

  /** So the URI identifies the profile, the bucket and the path. */
  lemma UriIsInjective(a: S3Location, b: S3Location)
    requires Printable(a) && Addressable(a) && Printable(b) && Addressable(b)
    ensures ToCanonicalUri(a) == ToCanonicalUri(b) <==>
      a.profileId == b.profileId && a.bucket == b.bucket && a.KeyOrPrefix() == b.KeyOrPrefix()
  {
    RoundTripAddressable(a);
    RoundTripAddressable(b);
    if ToCanonicalUri(a) == ToCanonicalUri(b) {
      assert Canonical(a) == Canonical(b);
    }
  }

  // ------------------------------------------------------------------------
  // Parsing, then printing
  // ------------------------------------------------------------------------

  lemma DecodedIsNonEmpty(s: JsString)
    requires s != [] && DecodeComponent(s).Some?
    ensures DecodeComponent(s).value != []
  {
  }

  /** A string is well-formed exactly when the parts around a slash are. */
  lemma WellFormedAround(s: JsString, k: nat)
    requires k < |s| && s[k] == SLASH
    ensures WellFormed(s) <==> WellFormed(s[..k]) && WellFormed(s[k + 1..])
  {
    if WellFormed(s) {
      WellFormedCut(s, k);
    }
    if WellFormed(s[..k]) && WellFormed(s[k + 1..]) {
      assert FirstPoint([SLASH]) == Some((0x2F, 1));
      WellFormedAppend(s[..k], [SLASH]);
      WellFormedAppend(s[..k] + [SLASH], s[k + 1..]);
      assert s == s[..k] + [SLASH] + s[k + 1..];
    }
  }

  lemma ParsedPathIsPrintable(profileId: JsString, afterProfile: JsString)
    requires ParsePath(profileId, afterProfile).Success?
    ensures var loc := ParsePath(profileId, afterProfile).value;
      (Printable(loc) <==> WellFormed(afterProfile)) && loc.bucket != [] && Canonical(loc) == loc
  {
    var slash := SlashIndex(afterProfile);
    var bucketRaw := afterProfile[..slash];
    DecodedWellFormedExact(bucketRaw);
    DecodedIsNonEmpty(bucketRaw);
    if slash == |afterProfile| {
      assert bucketRaw == afterProfile;
    } else {
      WellFormedAround(afterProfile, slash);
      DecodedWellFormedExact(afterProfile[slash + 1..]);
    }
  }

  /** The URI behind the scheme and the profile id. */
  function AfterProfile(uri: JsString): JsString
    requires FromCanonicalUri(uri).Success?
  {
    var rest := uri[|SCHEME|..];
    rest[SlashIndex(rest) + 1..]
  }

  /**
   Every URI the parser accepts names an addressable location in canonical form. It can
   be printed exactly when the part after the profile id is well-formed, and the URI
   printed from it parses to the very same location.
   */
  lemma Normalizes(uri: JsString)
    requires FromCanonicalUri(uri).Success?
    ensures var loc := FromCanonicalUri(uri).value;
      && Addressable(loc) && Canonical(loc) == loc
      && (ToCanonicalUri(loc).Some? <==> WellFormed(AfterProfile(uri)))
      && (ToCanonicalUri(loc).Some? ==> FromCanonicalUri(ToCanonicalUri(loc).value) == Success(loc))
  {
    var loc := FromCanonicalUri(uri).value;
    ParsedPathIsPrintable(loc.profileId, AfterProfile(uri));
    RoundTrip(loc);
  }
}
