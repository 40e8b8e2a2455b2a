/**
 The options of the API-key authentication scheme.
 */
module ApiKeyOptions {

  /** `ApiKeyAuthenticationOptions.SchemeName`. */
  const SchemeName := "API Key"

  /** `ApiKeyAuthenticationOptions`: every settable property. The scheme is not
      among them: `Scheme` has no setter and always answers `SchemeName`. */
  datatype Options = Options(
    apiKeyHeader: string,
    apiKeyQueryString: string,
    nameClaimType: string,
    roleClaimType: string,
    enableHeaderAuthentication: bool,
    enableQueryStringAuthentication: bool)
  {
    function Scheme(): string {
      SchemeName
    }
  }

  /** The options as constructed, before any property is set. */
  function Defaults(): (o: Options)
    ensures o.apiKeyHeader == "X-Api-Key" && o.apiKeyQueryString == "apiKey"
    ensures o.nameClaimType == "name" && o.roleClaimType == "role"
    ensures o.enableHeaderAuthentication && !o.enableQueryStringAuthentication
    ensures o.Scheme() == "API Key"
  {
    Options("X-Api-Key", "apiKey", "name", "role", true, false)
  }
}
