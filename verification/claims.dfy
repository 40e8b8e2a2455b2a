/**
 Claims, claims identities and claims principals, reduced to their data.
 */
module Claims {
  import opened Results

  /** `ClaimTypes.NameIdentifier`. */
  const NameIdentifier := "http://schemas.xmlsoap.org/ws/2005/05/identity/claims/nameidentifier"

  datatype Claim = Claim(claimType: string, value: string)

  /** A `ClaimsIdentity`: its claims in order, the authentication type it was
      created with (null for an unauthenticated identity) and the claim types
      it reads the name and the roles from. */
  datatype Identity = Identity(
    claims: seq<Claim>,
    authenticationType: Option<string>,
    nameClaimType: string,
    roleClaimType: string)

  /** `ClaimsIdentity.DefaultNameClaimType`, which is `ClaimTypes.Name`. */
  const DefaultNameClaimType := "http://schemas.xmlsoap.org/ws/2005/05/identity/claims/name"

  /** `ClaimsIdentity.DefaultRoleClaimType`, which is `ClaimTypes.Role`. */
  const DefaultRoleClaimType := "http://schemas.microsoft.com/ws/2008/06/identity/claims/role"

  /** `new ClaimsIdentity(claims, authenticationType, nameType, roleType)`: an
      empty name or role claim type is replaced by the default one. */
  function NewIdentity(claims: seq<Claim>, authenticationType: Option<string>, nameType: string, roleType: string)
    : (id: Identity)
    ensures id.claims == claims && id.authenticationType == authenticationType
    ensures id.nameClaimType == (if nameType == "" then DefaultNameClaimType else nameType)
    ensures id.roleClaimType == (if roleType == "" then DefaultRoleClaimType else roleType)
  {
    Identity(claims, authenticationType,
             if nameType == "" then DefaultNameClaimType else nameType,
             if roleType == "" then DefaultRoleClaimType else roleType)
  }

  /** A `ClaimsPrincipal`: its identities in order. */
  datatype Principal = Principal(identities: seq<Identity>)

  /** The claims of every identity of `p`, identity by identity. */
  function AllClaims(p: Principal): seq<Claim> {
    ClaimsOf(p.identities)
  }

  function ClaimsOf(ids: seq<Identity>): seq<Claim>
    decreases |ids|
  {
    if |ids| == 0 then [] else ids[0].claims + ClaimsOf(ids[1..])
  }
}
