/**
 * The URL service: validation of a creation request and the choice of its
 * short code, either the caller's own or one derived from the URL's hash.
 */
module Service {
  import opened Wrappers
  import opened Models
  import opened Base64Url

  /** A SHA-256 digest: 32 bytes. The hash itself is a parameter of the
      operations that use it. */
  type Digest = d: seq<byte> | |d| == 32 witness seq(32, i => 0 as byte)

  /** Number of characters a derived code keeps. */
  const DerivedCodeLength := 8

  predicate Removed(c: char) {
    c == '+' || c == '/' || c == '='
  }

  /** The replacer that deletes every '+', '/' and '='. */
  function Strip(s: string): (r: string)
    ensures |r| <= |s|
    ensures forall i | 0 <= i < |r| :: !Removed(r[i])
    decreases |s|
  {
    if s == [] then []
    else if Removed(s[0]) then Strip(s[1..])
    else [s[0]] + Strip(s[1..])
  }

  lemma {:induction false} StripAppend(x: string, y: string)
    ensures Strip(x + y) == Strip(x) + Strip(y)
    decreases |x|
  {
    if x == [] {
      assert x + y == y;
    } else {
      StripAppend(x[1..], y);
      assert (x + y)[0] == x[0] && (x + y)[1..] == x[1..] + y;
    }
  }

  /** A string of alphabet characters has nothing to strip. */
  lemma {:induction false} StripAlphabetOnly(s: string)
    requires forall i | 0 <= i < |s| :: InAlphabet(s[i])
    ensures Strip(s) == s
    decreases |s|
  {
    if s != [] {
      StripAlphabetOnly(s[1..]);
      assert s == [s[0]] + s[1..];
    }
  }

  /** The encoding of 8 bytes is that of the first 6, eight alphabet
      characters, followed by that of the last 2, three alphabet characters
      and a '='. */
  lemma EightByteSplit(b: seq<byte>)
    requires |b| == 8
    ensures Encode(b) == Encode(b[..6]) + Encode(b[6..])
    ensures |Encode(b[..6])| == 8 && forall i | 0 <= i < 8 :: InAlphabet(Encode(b[..6])[i])
    ensures |Encode(b[6..])| == 4 && Encode(b[6..])[3] == Pad
    ensures forall i | 0 <= i < 3 :: InAlphabet(Encode(b[6..])[i])
  {
    assert b == b[..6] + b[6..];
    EncodeAppend(b[..6], b[6..]);
    EncodeWholeGroups(b[..6]);
  }

  /** The encoding of 8 bytes: 12 characters, eleven from the alphabet and one
      '=' at the end; stripping leaves the eleven, whose first 8 are the
      encoding of the first 6 bytes. */
  lemma EightByteEncoding(b: seq<byte>)
    requires |b| == 8
    ensures |Encode(b)| == 12 && Encode(b)[11] == Pad
    ensures forall i | 0 <= i < 11 :: InAlphabet(Encode(b)[i])
    ensures Strip(Encode(b)) == Encode(b)[..11]
    ensures Encode(b)[..8] == Encode(b[..6])
  {
    EightByteSplit(b);
    var eh, et := Encode(b[..6]), Encode(b[6..]);
    var kept := et[..3];
    assert et == kept + [Pad];
    StripAlphabetOnly(eh);
    StripAlphabetOnly(kept);
    StripAppend(kept, [Pad]);
    StripAppend(eh, et);
    assert Strip([Pad]) == [];
    assert Encode(b)[..11] == eh + kept;
  }

  /** The code derived from a digest: base64url of its first 8 bytes with
      '+', '/' and '=' removed, cut to 8 characters. The cut is in bounds, the
      result is 8 alphabet characters, and it carries exactly the first 48
      bits of the digest. */
  function GenerateShortCode(digest: Digest): (code: string)
    ensures |code| == DerivedCodeLength
    ensures forall i | 0 <= i < |code| :: InAlphabet(code[i])
    ensures code == Encode(digest[..6])
  {
    var encoded := Encode(digest[..8]);
    var shortCode := Strip(encoded);
    EightByteEncoding(digest[..8]);
    assert digest[..8][..6] == digest[..6];
    shortCode[..DerivedCodeLength]
  }

  /** Two digests give the same code exactly when their first 6 bytes agree. */
  lemma ShortCodeDeterminedByPrefix(d1: Digest, d2: Digest)
    ensures GenerateShortCode(d1) == GenerateShortCode(d2) <==> d1[..6] == d2[..6]
  {
    EncodeInjective(d1[..6], d2[..6]);
  }

  datatype ServiceError = EmptyUrl | NotImplemented

  /** Validates the request and builds the record: an empty URL is refused; a
      custom code is used as given; otherwise the code is derived from the
      hash of the URL. Nothing is stored. */
  function CreateShortUrl(req: CreateUrlRequest, sha256: string -> Digest, now: Instant): (r: Result<Url, ServiceError>)
    ensures r.Failure? <==> req.longUrl == ""
    ensures r.Failure? ==> r.error == EmptyUrl
    ensures r.Success? ==> r.value.longUrl == req.longUrl && r.value.expiresAt == req.expiresAt
    ensures r.Success? ==> r.value.createdAt == now && r.value.clicks == 0 && r.value.id == 0
    ensures r.Success? && req.customCode != "" ==> r.value.shortCode == req.customCode
    ensures r.Success? && req.customCode == "" ==>
      r.value.shortCode == Encode(sha256(req.longUrl)[..6]) && |r.value.shortCode| == DerivedCodeLength
  {
    if req.longUrl == "" then Failure(EmptyUrl)
    else
      var shortCode := if req.customCode == "" then GenerateShortCode(sha256(req.longUrl)) else req.customCode;
      Success(Url(0, req.longUrl, shortCode, 0, now, req.expiresAt))
  }

  /** Requests for the same URL without a custom code get the same code,
      whatever their other fields and creation times. */
  lemma SameUrlSameCode(a: CreateUrlRequest, b: CreateUrlRequest, sha256: string -> Digest, t1: Instant, t2: Instant)
    requires a.longUrl == b.longUrl != "" && a.customCode == b.customCode == ""
    ensures CreateShortUrl(a, sha256, t1).Success? && CreateShortUrl(b, sha256, t2).Success?
    ensures CreateShortUrl(a, sha256, t1).value.shortCode == CreateShortUrl(b, sha256, t2).value.shortCode
  {
  }

  /** Lookup by code is not implemented: it always fails. */
  function GetUrl(shortCode: string): (r: Result<Url, ServiceError>)
    ensures r.Failure? && r.error == NotImplemented
  {
    Failure(NotImplemented)
  }

  /** Click counting is not implemented: it always fails. */
  function IncrementClicks(shortCode: string): (r: Option<ServiceError>)
    ensures r == Some(NotImplemented)
  {
    Some(NotImplemented)
  }
}
