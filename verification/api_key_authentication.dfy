/**
 The API-key authentication decision: find a key in the request header or
 query string, look it up in the key store, and answer "no result", "fail"
 or "success" with a ticket carrying the key owner's claims.
 */
module ApiKeyAuthentication {
  import opened Results
  import opened Text
  import opened Requests
  import opened Claims
  import opened ApiKeyOptions

  /** The record a key provider returns for a valid key (`IApiKey`);
      `additionalClaims` may be null. */
  datatype ApiKey = ApiKey(key: string, userId: string, additionalClaims: Option<seq<Claim>>)

  /** A key provider as a map: a key that is not in the map is not valid, and
      the provider answers null for it. */
  type KeyStore = map<string, ApiKey>

  function GetApiKey(store: KeyStore, key: string): Option<ApiKey> {
    if key in store then Some(store[key]) else None
  }

  datatype Ticket = Ticket(principal: Principal, authenticationScheme: string)

  /** `AuthenticateResult`: no credential offered, an invalid one, or a ticket. */
  datatype AuthenticateResult = NoResult | Fail(failure: string) | Success(ticket: Ticket)

  const InvalidApiKey := "Invalid API Key."

  // ---------------------------------------------------------------------
  // The reference reading: which key a request presents
  // ---------------------------------------------------------------------

  /** The key a request source can authenticate with: the first value of the
      entry `name`, provided the source is enabled, the entry is present, and
      that first value is neither null nor white space. */
  function UsableKey(enabled: bool, c: Collection, name: string): (k: Option<string>)
    ensures k.Some? ==> !IsNullOrWhiteSpace(k)
  {
    if enabled && TryGetValue(c, name).Some? && |TryGetValue(c, name).value| > 0
       && !IsNullOrWhiteSpace(Some(TryGetValue(c, name).value[0]))
    then Some(TryGetValue(c, name).value[0])
    else None
  }

  /** The header's usable key if it has one, else the query string's. */
  function PresentedKey(o: Options, headers: Collection, query: Collection): Option<string> {
    var fromHeader := UsableKey(o.enableHeaderAuthentication, headers, o.apiKeyHeader);
    if fromHeader.Some? then fromHeader
    else UsableKey(o.enableQueryStringAuthentication, query, o.apiKeyQueryString)
  }

  // ---------------------------------------------------------------------
  // The handler as written
  // ---------------------------------------------------------------------

  /** The value `apiKey` holds when the handler tests it for the last time:
      the header's first value if header authentication is on and the header
      is present; replaced by the query parameter's first value when that is
      null or white space, query authentication is on and the parameter is
      present. It may still be null or white space. */
  function CandidateKey(o: Options, headers: Collection, query: Collection): (r: Option<string>)
    ensures IsNullOrWhiteSpace(r) <==> PresentedKey(o, headers, query).None?
    ensures !IsNullOrWhiteSpace(r) ==> r == PresentedKey(o, headers, query)
  {
    var fromHeader :=
      if o.enableHeaderAuthentication && TryGetValue(headers, o.apiKeyHeader).Some?
      then FirstOrDefault(TryGetValue(headers, o.apiKeyHeader).value)
      else None;
    if IsNullOrWhiteSpace(fromHeader) && o.enableQueryStringAuthentication
       && TryGetValue(query, o.apiKeyQueryString).Some?
    then FirstOrDefault(TryGetValue(query, o.apiKeyQueryString).value)
    else fromHeader
  }

  /** The user-id claim followed by the record's additional claims, if any. */
  function ClaimsFor(record: ApiKey): (cs: seq<Claim>)
    ensures |cs| >= 1 && cs[0] == Claim(NameIdentifier, record.userId)
    ensures record.additionalClaims.Some? ==> cs[1..] == record.additionalClaims.value
    ensures record.additionalClaims.None? ==> |cs| == 1
  {
    var userClaim := [Claim(NameIdentifier, record.userId)];
    match record.additionalClaims
    case Some(extra) => if |extra| > 0 then userClaim + extra else userClaim
    case None => userClaim
  }

  /** The ticket for a valid key: one identity, authenticated by the scheme,
      reading names and roles from the configured claim types, or from the
      identity's default ones where an option is empty. */
  function TicketFor(o: Options, record: ApiKey): (t: Ticket)
    ensures t.authenticationScheme == SchemeName
    ensures |t.principal.identities| == 1
    ensures t.principal.identities[0].claims == ClaimsFor(record)
    ensures t.principal.identities[0].authenticationType == Some(SchemeName)
    ensures o.nameClaimType != "" ==> t.principal.identities[0].nameClaimType == o.nameClaimType
    ensures o.nameClaimType == "" ==> t.principal.identities[0].nameClaimType == DefaultNameClaimType
    ensures o.roleClaimType != "" ==> t.principal.identities[0].roleClaimType == o.roleClaimType
    ensures o.roleClaimType == "" ==> t.principal.identities[0].roleClaimType == DefaultRoleClaimType
  {
    var identity := NewIdentity(ClaimsFor(record), Some(o.Scheme()), o.nameClaimType, o.roleClaimType);
    Ticket(Principal([identity]), o.Scheme())
  }

  /** `HandleAuthenticateAsync`. */
  function Authenticate(o: Options, headers: Collection, query: Collection, store: KeyStore)
    : (r: AuthenticateResult)
    ensures r.NoResult? <==> PresentedKey(o, headers, query).None?
    ensures r.Fail? <==> PresentedKey(o, headers, query).Some?
                         && PresentedKey(o, headers, query).value !in store
    ensures r.Fail? ==> r.failure == InvalidApiKey
    ensures r.Success? ==> PresentedKey(o, headers, query).Some?
                           && PresentedKey(o, headers, query).value in store
                           && r.ticket == TicketFor(o, store[PresentedKey(o, headers, query).value])
  {
    var apiKey := CandidateKey(o, headers, query);
    if IsNullOrWhiteSpace(apiKey) then NoResult
    else
      match GetApiKey(store, apiKey.value)
      case None => Fail(InvalidApiKey)
      case Some(record) => Success(TicketFor(o, record))
  }

  // ---------------------------------------------------------------------
  // Properties relating several requests
  // ---------------------------------------------------------------------

  /** With header authentication off, the headers never matter. */
  lemma {:induction false} HeaderDisabledIgnoresHeaders(o: Options, h1: Collection, h2: Collection, query: Collection, store: KeyStore)
    requires !o.enableHeaderAuthentication
    ensures Authenticate(o, h1, query, store) == Authenticate(o, h2, query, store)
  {
  }

  /** A usable header key wins: the query string is not consulted, even with
      query authentication on. */
  lemma {:induction false} HeaderKeyWins(o: Options, headers: Collection, q1: Collection, q2: Collection, store: KeyStore)
    requires UsableKey(o.enableHeaderAuthentication, headers, o.apiKeyHeader).Some?
    ensures CandidateKey(o, headers, q1) == UsableKey(o.enableHeaderAuthentication, headers, o.apiKeyHeader)
    ensures Authenticate(o, headers, q1, store) == Authenticate(o, headers, q2, store)
  {
  }

  /** A missing, empty, null or white-space header value falls through to the
      query string: the outcome is as if header authentication were off. */
  lemma {:induction false} BlankHeaderFallsThrough(o: Options, headers: Collection, query: Collection, store: KeyStore)
    requires UsableKey(o.enableHeaderAuthentication, headers, o.apiKeyHeader).None?
    ensures Authenticate(o, headers, query, store)
         == Authenticate(o.(enableHeaderAuthentication := false), headers, query, store)
  {
  }

  /** Only the first value of a multi-valued header or query parameter counts. */
  lemma {:induction false} OnlyFirstValueCounts(o: Options, headers: Collection, query: Collection, store: KeyStore, v: string, rest: seq<string>)
    ensures Authenticate(o, SetValues(headers, o.apiKeyHeader, [v] + rest), query, store)
         == Authenticate(o, SetValues(headers, o.apiKeyHeader, [v]), query, store)
    ensures Authenticate(o, headers, SetValues(query, o.apiKeyQueryString, [v] + rest), store)
         == Authenticate(o, headers, SetValues(query, o.apiKeyQueryString, [v]), store)
  {
    FirstHeaderValue(o, headers, query, v, rest);
    FirstQueryValue(o, headers, query, v, rest);
  }

  lemma {:induction false} FirstHeaderValue(o: Options, headers: Collection, query: Collection, v: string, rest: seq<string>)
    ensures CandidateKey(o, SetValues(headers, o.apiKeyHeader, [v] + rest), query)
         == CandidateKey(o, SetValues(headers, o.apiKeyHeader, [v]), query)
  {
    assert FirstOrDefault([v] + rest) == FirstOrDefault([v]);
  }

  lemma {:induction false} FirstQueryValue(o: Options, headers: Collection, query: Collection, v: string, rest: seq<string>)
    ensures CandidateKey(o, headers, SetValues(query, o.apiKeyQueryString, [v] + rest))
         == CandidateKey(o, headers, SetValues(query, o.apiKeyQueryString, [v]))
  {
    assert FirstOrDefault([v] + rest) == FirstOrDefault([v]);
  }

  /** Without a usable key the outcome is `NoResult`, whatever the store holds. */
  lemma {:induction false} NoKeyMeansNoResult(o: Options, headers: Collection, query: Collection, s1: KeyStore, s2: KeyStore)
    requires PresentedKey(o, headers, query).None?
    ensures Authenticate(o, headers, query, s1) == NoResult
    ensures Authenticate(o, headers, query, s1) == Authenticate(o, headers, query, s2)
  {
  }

  /** Both sources off: always `NoResult`. */
  lemma {:induction false} BothDisabledNoResult(o: Options, headers: Collection, query: Collection, store: KeyStore)
    requires !o.enableHeaderAuthentication && !o.enableQueryStringAuthentication
    ensures Authenticate(o, headers, query, store) == NoResult
  {
  }

  /** With the default options only the header is read. */
  lemma {:induction false} DefaultsIgnoreQuery(headers: Collection, q1: Collection, q2: Collection, store: KeyStore)
    ensures Authenticate(Defaults(), headers, q1, store) == Authenticate(Defaults(), headers, q2, store)
  {
  }

  /** On success the identity holds the user-id claim and then the additional
      claims in order; a null or empty list of additional claims gives exactly
      one claim. The ticket's scheme is the constant scheme name. */
  lemma {:induction false} SuccessClaims(o: Options, headers: Collection, query: Collection, store: KeyStore)
    requires Authenticate(o, headers, query, store).Success?
    ensures var k := PresentedKey(o, headers, query).value;
            var cs := Authenticate(o, headers, query, store).ticket.principal.identities[0].claims;
            && cs[0] == Claim(NameIdentifier, store[k].userId)
            && (store[k].additionalClaims.Some? ==> cs[1..] == store[k].additionalClaims.value)
            && (store[k].additionalClaims.None? || store[k].additionalClaims == Some([]) ==> |cs| == 1)
    ensures Authenticate(o, headers, query, store).ticket.authenticationScheme == "API Key"
  {
  }
}
