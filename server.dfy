/**
 * The HTTP server's own logic: URL normalisation and the host rule, the
 * short-code allocator, and the three handlers that write and read the
 * keyspace (shorten, info, redirect). Requests, responses and the foreign
 * calls (URL parsing, the reachability probe, the entropy source) are
 * parameters.
 */
module Server {
  import opened Wrappers
  import opened Redis

  /** `n` consecutive characters starting at `first`. */
  function Span(first: char, n: nat): (s: string)
    requires first as int + n <= 0xD800
    ensures |s| == n && forall i | 0 <= i < n :: s[i] as int == first as int + i
  {
    seq(n, i requires 0 <= i < n => (first as int + i) as char)
  }

  /** The 62 characters a generated code is drawn from, in this order:
      a to z, A to Z, 0 to 9. */
  const Charset: string := Span('a', 26) + Span('A', 26) + Span('0', 10)
  const CodeLength: nat := 6
  /** The time to live of a mapping: 365 days, in milliseconds. */
  const MappingTtl: nat := 365 * 24 * 60 * 60 * 1000
  const VisitsPrefix: string := "visits:"

  predicate IsAlphanumeric(c: char) {
    'a' <= c <= 'z' || 'A' <= c <= 'Z' || '0' <= c <= '9'
  }

  /** The charset is exactly the letters and digits. */
  lemma CharsetIsAlphanumeric(c: char)
    ensures |Charset| == 62
    ensures c in Charset <==> IsAlphanumeric(c)
  {
    if 'a' <= c <= 'z' {
      assert Charset[c as int - 'a' as int] == c;
    } else if 'A' <= c <= 'Z' {
      assert Charset[26 + c as int - 'A' as int] == c;
    } else if '0' <= c <= '9' {
      assert Charset[52 + c as int - '0' as int] == c;
    }
  }

  // ---------------------------------------------------------------------
  // URL normalisation and the host rule

  predicate HasPrefix(s: string, p: string) {
    |p| <= |s| && s[..|p|] == p
  }

  predicate HasScheme(s: string) {
    HasPrefix(s, "http://") || HasPrefix(s, "https://")
  }

  /** The input with "https://" put in front, unless it already starts with
      "http://" or "https://". */
  function Normalize(input: string): (r: string)
    ensures HasScheme(r)
    ensures r == input <==> HasScheme(input)
    ensures !HasScheme(input) ==> r == "https://" + input
    ensures |input| <= |r| && r[|r| - |input|..] == input
  {
    if HasScheme(input) then input else "https://" + input
  }

  lemma NormalizeIdempotent(input: string)
    ensures Normalize(Normalize(input)) == Normalize(input)
  {
  }

  /** A host is acceptable when it has at least one '.' and no space. */
  predicate ValidDomain(host: string) {
    '.' in host && ' ' !in host
  }

  /** What the URL parser makes of a string: a failure, or the host part. */
  datatype ParsedUrl = ParseError | Parsed(host: string)

  /** What the reachability probe (a HEAD request) gets: a failure, or a status. */
  datatype Probe = ProbeError | Status(code: int)

  datatype ValidationError =
    | InvalidFormat        // the parser refused the URL
    | NoHost               // the URL has no host
    | InvalidDomain        // the host breaks the '.' and space rule
    | NotReachable         // the probe failed
    | ErrorStatus(code: int) // the probe got a status of 400 or more

  /** The checks of the shorten request, in order, on the normalised URL:
      it must parse, have a host, have a valid domain, and answer the probe
      with a status below 400. */
  function ValidateAndNormalize(input: string, parse: string -> ParsedUrl, probe: string -> Probe)
    : (r: Result<string, ValidationError>)
    ensures r.Success? ==> r.value == Normalize(input) && HasScheme(r.value)
    ensures r.Success? <==>
      (parse(Normalize(input)).Parsed? && ValidDomain(parse(Normalize(input)).host) &&
       probe(Normalize(input)).Status? && probe(Normalize(input)).code < 400)
    ensures r == Failure(InvalidFormat) <==> parse(Normalize(input)).ParseError?
    ensures r == Failure(NoHost) <==> parse(Normalize(input)) == Parsed("")
    ensures r == Failure(InvalidDomain) <==>
      (parse(Normalize(input)).Parsed? && parse(Normalize(input)).host != "" && !ValidDomain(parse(Normalize(input)).host))
    ensures r == Failure(NotReachable) <==>
      (parse(Normalize(input)).Parsed? && ValidDomain(parse(Normalize(input)).host) && probe(Normalize(input)).ProbeError?)
    ensures (r.Failure? && r.error.ErrorStatus?) <==>
      (parse(Normalize(input)).Parsed? && ValidDomain(parse(Normalize(input)).host) &&
       probe(Normalize(input)).Status? && probe(Normalize(input)).code >= 400)
    ensures r.Failure? && r.error.ErrorStatus? ==> r.error.code == probe(Normalize(input)).code
  {
    var url := Normalize(input);
    match parse(url)
    case ParseError => Failure(InvalidFormat)
    case Parsed(host) =>
      if host == "" then Failure(NoHost)
      else if !ValidDomain(host) then Failure(InvalidDomain)
      else match probe(url)
        case ProbeError => Failure(NotReachable)
        case Status(code) => if code >= 400 then Failure(ErrorStatus(code)) else Success(url)
  }

  // ---------------------------------------------------------------------
  // The short-code allocator

  /** One character's worth of entropy: an index from the secure source,
      or, when that source fails, the clock in nanoseconds. */
  datatype Draw = Secure(index: nat) | Fallback(nanos: nat)

  /** The secure source promises an index below the charset's length. */
  predicate WellDrawn(d: Draw) {
    d.Secure? ==> d.index < |Charset|
  }

  /** One pass of the allocator's loop: a draw per character, and whether
      the existence check that follows fails. */
  datatype Round = Round(draws: seq<Draw>, existsFault: bool)

  predicate WellFormedRound(round: Round) {
    |round.draws| == CodeLength && forall i | 0 <= i < CodeLength :: WellDrawn(round.draws[i])
  }

  function CharFor(d: Draw): char
    requires WellDrawn(d)
  {
    match d
    case Secure(i) => Charset[i]
    case Fallback(nanos) => Charset[nanos % |Charset|]
  }

  predicate IsCode(s: string) {
    |s| == CodeLength && forall i | 0 <= i < |s| :: s[i] in Charset
  }

  /** The code a round spells: six characters of the charset. */
  function CodeOf(round: Round): (code: string)
    requires WellFormedRound(round)
    ensures IsCode(code)
  {
    seq(CodeLength, i requires 0 <= i < CodeLength => CharFor(round.draws[i]))
  }

  /** A round whose code is not taken: the existence check answered, and
      answered 0. */
  predicate Accepted(ks: Keyspace, round: Round, now: nat)
    requires WellFormedRound(round)
  {
    Exists(ks, CodeOf(round), now, round.existsFault) == Success(0)
  }

  predicate SomeAccepted(ks: Keyspace, rounds: seq<Round>, now: nat)
    requires forall j | 0 <= j < |rounds| :: WellFormedRound(rounds[j])
  {
    exists j | 0 <= j < |rounds| :: Accepted(ks, rounds[j], now)
  }

  /** The index of the first round the existence check accepts, or the
      number of rounds when none is accepted. */
  function FirstAccepted(ks: Keyspace, rounds: seq<Round>, now: nat): (j: nat)
    requires forall j | 0 <= j < |rounds| :: WellFormedRound(rounds[j])
    ensures j <= |rounds|
    ensures forall i | 0 <= i < j :: !Accepted(ks, rounds[i], now)
    ensures j < |rounds| ==> Accepted(ks, rounds[j], now)
    ensures j < |rounds| <==> SomeAccepted(ks, rounds, now)
    decreases |rounds|
  {
    if |rounds| == 0 then 0
    else if Accepted(ks, rounds[0], now) then 0
    else 1 + FirstAccepted(ks, rounds[1..], now)
  }

  /** The allocator. It repeats rounds until the existence check reports a
      code absent and returns that code; `tries` is the number of rounds it
      rejected. The source loops without bound; here it gives up with None
      when the rounds run out. */
  method GenerateShortCode(rdb: Store, rounds: seq<Round>, now: nat) returns (code: Option<string>, tries: nat)
    requires forall j | 0 <= j < |rounds| :: WellFormedRound(rounds[j])
    ensures tries <= |rounds|
    ensures forall j | 0 <= j < tries :: !Accepted(rdb.data, rounds[j], now)
    ensures code.Some? ==> tries < |rounds| && Accepted(rdb.data, rounds[tries], now) && code.value == CodeOf(rounds[tries])
    ensures code.Some? ==> IsCode(code.value) && Lookup(rdb.data, code.value, now).None?
    ensures code.None? ==> tries == |rounds|
    ensures code.Some? <==> SomeAccepted(rdb.data, rounds, now)
    ensures tries == FirstAccepted(rdb.data, rounds, now)
  {
    tries := 0;
    while tries < |rounds|
      invariant tries <= |rounds|
      invariant forall j | 0 <= j < tries :: !Accepted(rdb.data, rounds[j], now)
    {
      var round := rounds[tries];
      var buffer := new char[CodeLength];
      for i := 0 to CodeLength
        invariant forall k | 0 <= k < i :: buffer[k] == CharFor(round.draws[k])
      {
        match round.draws[i]
        case Fallback(nanos) =>
          buffer[i] := Charset[nanos % |Charset|];
        case Secure(index) =>
          buffer[i] := Charset[index];
      }
      var candidate := buffer[..];
      assert candidate == CodeOf(round);
      var reply := Exists(rdb.data, candidate, now, round.existsFault);
      if reply == Success(0) {
        return Some(candidate), tries;
      }
      tries := tries + 1;
    }
    code := None;
  }

  // ---------------------------------------------------------------------
  // The keyspace layout and the handlers

  function VisitsKey(code: string): (key: string)
    ensures key != code && HasPrefix(key, VisitsPrefix)
  {
    VisitsPrefix + code
  }

  /** How the handlers lay out the keyspace: a mapping sits under a short
      code, holds a URL with a scheme and has a time to live; a counter sits
      under a key starting with "visits:", is a positive 64-bit integer and has no
      time to live. */
  ghost predicate EntryFits(key: string, e: Entry) {
    match e.value
    case Text(url) => IsCode(key) && HasScheme(url) && e.expireAt.Some?
    case Int(n) => HasPrefix(key, VisitsPrefix) && 1 <= n <= MaxInt64 && e.expireAt.None?
  }

  ghost predicate Layout(ks: Keyspace) {
    forall key | key in ks :: EntryFits(key, ks[key])
  }

  /** Under the layout, a counter key never holds text, so an INCR on it can
      fail only at the 64-bit maximum. */
  lemma CounterKeyHoldsNoText(ks: Keyspace, code: string, now: nat)
    requires Layout(ks)
    ensures Lookup(ks, VisitsKey(code), now).Some? ==> Lookup(ks, VisitsKey(code), now).value.Int?
    ensures Increment(ks, VisitsKey(code), now).Failure? ==> Increment(ks, VisitsKey(code), now).error == Overflow
  {
    var key := VisitsKey(code);
    if key in ks {
      assert EntryFits(key, ks[key]);
      assert |key| > CodeLength;
    }
  }

  /** Storing a URL with a scheme under a code keeps the layout. */
  lemma SetKeepsLayout(ks: Keyspace, code: string, url: string, expireAt: nat)
    requires Layout(ks) && IsCode(code) && HasScheme(url)
    ensures Layout(SetWithExpiry(ks, code, url, expireAt))
  {
    var after := SetWithExpiry(ks, code, url, expireAt);
    assert forall key | key in after :: key == code || (key in ks && after[key] == ks[key]);
    assert EntryFits(code, after[code]);
  }

  datatype ApiError =
    | MissingLongUrl                       // 400 from the request binding
    | BadRequest(reason: ValidationError)  // 400
    | StoreWriteFailed                     // 500 "Failed to store URL"
    | NotFound                             // 404 "URL not found"
    | StoreReadFailed                      // 500 "Failed to retrieve URL"
    | OutOfRounds                          // the allocator's rounds ran out

  /** The short URL shown to a client that reached the server at `host`. */
  function ShortUrl(host: string, code: string): string {
    "http://" + host + "/" + code
  }

  datatype Created = Created(shortCode: string, shortUrl: string, longUrl: string)

  /** POST /api/v1/shorten: refuse a missing `long_url` (the binding treats
      "" as missing), validate and normalise the URL, allocate a code, and
      store the mapping for one year. */
  method CreateShortUrl(rdb: Store, longUrl: string, parse: string -> ParsedUrl, probe: string -> Probe,
                        rounds: seq<Round>, setFault: bool, now: nat, host: string)
    returns (r: Result<Created, ApiError>)
    requires forall j | 0 <= j < |rounds| :: WellFormedRound(rounds[j])
    requires Layout(rdb.data)
    modifies rdb
    ensures Layout(rdb.data)
    ensures longUrl == "" ==> r == Failure(MissingLongUrl)
    ensures longUrl != "" && ValidateAndNormalize(longUrl, parse, probe).Failure? ==>
      r == Failure(BadRequest(ValidateAndNormalize(longUrl, parse, probe).error))
    ensures longUrl != "" && ValidateAndNormalize(longUrl, parse, probe).Success? && !SomeAccepted(old(rdb.data), rounds, now) ==>
      r == Failure(OutOfRounds)
    ensures longUrl != "" && ValidateAndNormalize(longUrl, parse, probe).Success? && SomeAccepted(old(rdb.data), rounds, now) && setFault ==>
      r == Failure(StoreWriteFailed)
    ensures longUrl != "" && ValidateAndNormalize(longUrl, parse, probe).Success? && SomeAccepted(old(rdb.data), rounds, now) && !setFault ==>
      r.Success?
    ensures r.Failure? ==> rdb.data == old(rdb.data)
    ensures r.Success? ==>
      && longUrl != ""
      && ValidateAndNormalize(longUrl, parse, probe) == Success(r.value.longUrl)
      && FirstAccepted(old(rdb.data), rounds, now) < |rounds|
      && r.value.shortCode == CodeOf(rounds[FirstAccepted(old(rdb.data), rounds, now)])
      && IsCode(r.value.shortCode)
      && Lookup(old(rdb.data), r.value.shortCode, now).None?
      && r.value.shortUrl == ShortUrl(host, r.value.shortCode)
      && rdb.data == SetWithExpiry(old(rdb.data), r.value.shortCode, r.value.longUrl, now + MappingTtl)
    ensures r.Success? ==> forall t: nat ::
      Lookup(rdb.data, r.value.shortCode, t) == if t < now + MappingTtl then Some(Text(r.value.longUrl)) else None
  {
    if longUrl == "" {
      return Failure(MissingLongUrl);
    }
    var validated := ValidateAndNormalize(longUrl, parse, probe);
    if validated.Failure? {
      return Failure(BadRequest(validated.error));
    }
    var normalized := validated.value;
    var code, _ := GenerateShortCode(rdb, rounds, now);
    if code.None? {
      return Failure(OutOfRounds);
    }
    ghost var before := rdb.data;
    var err := rdb.Set(code.value, normalized, MappingTtl, now, setFault);
    if err.Some? {
      return Failure(StoreWriteFailed);
    }
    SetKeepsLayout(before, code.value, normalized, now + MappingTtl);
    r := Success(Created(code.value, ShortUrl(host, code.value), normalized));
  }

  /** The lookup both reading handlers start with: the stored URL, NotFound
      for a missing or expired code, or a read failure. */
  function Resolve(ks: Keyspace, code: string, now: nat, fault: bool): (r: Result<string, ApiError>)
    ensures r == Failure(NotFound) <==> !fault && Lookup(ks, code, now).None?
    ensures r.Success? <==> !fault && Lookup(ks, code, now).Some?
    ensures r.Failure? ==> r.error == NotFound || r.error == StoreReadFailed
    ensures r.Success? ==> r.value == Render(Lookup(ks, code, now).value)
  {
    match Get(ks, code, now, fault)
    case Nil => Failure(NotFound)
    case Err(_) => Failure(StoreReadFailed)
    case Ok(longUrl) => Success(longUrl)
  }

  datatype Info = Info(shortCode: string, shortUrl: string, longUrl: string, visits: int)

  /** GET /api/v1/info/:code: the mapping and its visit count. The count is
      read best effort: a missing counter, and a failed read of it
      (`visitsFault`), both give 0. */
  function GetUrlInfo(ks: Keyspace, code: string, now: nat, host: string, fault: bool, visitsFault: bool)
    : (r: Result<Info, ApiError>)
    ensures r.Failure? <==> Resolve(ks, code, now, fault).Failure?
    ensures r.Failure? ==> r.error == Resolve(ks, code, now, fault).error
    ensures r.Success? ==> r.value.longUrl == Resolve(ks, code, now, fault).value
    ensures r.Success? ==> r.value.shortCode == code && r.value.shortUrl == ShortUrl(host, code)
    ensures r.Success? && (visitsFault || Lookup(ks, VisitsKey(code), now).None?) ==> r.value.visits == 0
    ensures r.Success? && !visitsFault && Lookup(ks, VisitsKey(code), now).Some? && Lookup(ks, VisitsKey(code), now).value.Int? ==>
      r.value.visits == Lookup(ks, VisitsKey(code), now).value.n
  {
    match Resolve(ks, code, now, fault)
    case Failure(e) => Failure(e)
    case Success(longUrl) =>
      var visits := if visitsFault then 0 else CounterOrZero(ks, VisitsKey(code), now);
      Success(Info(code, ShortUrl(host, code), longUrl, visits))
  }

  /** GET /:code: resolve the code and redirect (301) to its URL; then, as a
      separate step, INCR its counter, whose outcome is discarded. A code
      that does not resolve changes nothing. */
  method RedirectUrl(rdb: Store, code: string, now: nat, fault: bool, incrFault: bool)
    returns (r: Result<string, ApiError>)
    requires Layout(rdb.data)
    modifies rdb
    ensures Layout(rdb.data)
    ensures r == Resolve(old(rdb.data), code, now, fault)
    ensures r.Failure? ==> rdb.data == old(rdb.data)
    ensures r.Success? && (incrFault || Increment(old(rdb.data), VisitsKey(code), now).Failure?) ==>
      rdb.data == old(rdb.data)
    ensures r.Success? && !incrFault && Increment(old(rdb.data), VisitsKey(code), now).Success? ==>
      rdb.data == Increment(old(rdb.data), VisitsKey(code), now).value.0
    ensures forall k, t: nat | k != VisitsKey(code) :: Lookup(rdb.data, k, t) == Lookup(old(rdb.data), k, t)
  {
    r := Resolve(rdb.data, code, now, fault);
    if r.Failure? {
      return;
    }
    ghost var before := rdb.data;
    var _ := rdb.Incr(VisitsKey(code), now, incrFault);
    CounterKeyHoldsNoText(before, code, now);
    IncrementKeepsLayout(before, code, now);
  }

  lemma IncrementKeepsLayout(ks: Keyspace, code: string, now: nat)
    requires Layout(ks)
    ensures Increment(ks, VisitsKey(code), now).Success? ==> Layout(Increment(ks, VisitsKey(code), now).value.0)
  {
    var key := VisitsKey(code);
    var r := Increment(ks, key, now);
    if r.Success? {
      var after := r.value.0;
      assert forall k | k in after :: k == key || (k in ks && after[k] == ks[k]);
      CounterKeyHoldsNoText(ks, code, now);
      assert EntryFits(key, after[key]);
    }
  }

  /** Round trip: once a mapping is stored at `now`, the info lookup of its
      code returns the URL at every instant before the year is up, and
      NotFound from then on. The visit count is whatever the counter holds. */
  lemma InfoAfterCreate(ks: Keyspace, code: string, url: string, now: nat, t: nat, host: string)
    ensures var after := SetWithExpiry(ks, code, url, now + MappingTtl);
      var info := GetUrlInfo(after, code, t, host, false, false);
      && (t < now + MappingTtl ==>
            info == Success(Info(code, ShortUrl(host, code), url, CounterOrZero(ks, VisitsKey(code), t))))
      && (t >= now + MappingTtl ==> info == Failure(NotFound))
  {
  }

  /** A redirect that counted raises the reported visits by exactly one and
      leaves the reported URL as it was. */
  lemma RedirectCountsOneVisit(ks: Keyspace, code: string, now: nat, host: string)
    requires Increment(ks, VisitsKey(code), now).Success?
    requires GetUrlInfo(ks, code, now, host, false, false).Success?
    ensures var after := Increment(ks, VisitsKey(code), now).value.0;
      var before := GetUrlInfo(ks, code, now, host, false, false).value;
      GetUrlInfo(after, code, now, host, false, false) == Success(before.(visits := before.visits + 1))
  {
  }
}
