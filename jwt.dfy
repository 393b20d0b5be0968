/**
 * JSON Web Tokens (RFC 7519) as the users service sees them: a header
 * algorithm, the identity claims, the `iat` and `exp` times (section 4.1 of
 * RFC 7519) and the key the signature was computed with. Serialisation and
 * the HMAC itself are abstract: a signature verifies under key `k` exactly
 * when the token was signed with `k`.
 */
module Jwt {
  import opened Wrappers

  /** `SecurityAlgorithms.HmacSha256`: the `alg` value "HS256" of section 3.1 of RFC 7518. */
  const HmacSha256: string := "HS256"

  /** `ClaimTypes.Name`, `ClaimTypes.NameIdentifier`, `ClaimTypes.Role`, or any other claim type URI. */
  datatype ClaimType = NameClaim | NameIdentifierClaim | RoleClaim | OtherClaim(uri: string)

  datatype Claim = Claim(claimType: ClaimType, value: string)

  datatype SecurityToken =
    | Malformed
    | Jwt(alg: string, claims: seq<Claim>, issuedAt: int, expires: int, signingKey: Option<string>)

  /** `claims.FirstOrDefault(c => c.Type == claimType)`. */
  function FindFirst(claims: seq<Claim>, claimType: ClaimType): (r: Option<Claim>)
    ensures r.None? <==> forall i :: 0 <= i < |claims| ==> claims[i].claimType != claimType
    ensures r.Some? ==> exists i :: 0 <= i < |claims| && claims[i] == r.value && claims[i].claimType == claimType
                                    && forall j :: 0 <= j < i ==> claims[j].claimType != claimType
    decreases |claims|
  {
    if claims == [] then None
    else if claims[0].claimType == claimType then Some(claims[0])
    else
      var r := FindFirst(claims[1..], claimType);
      if r.Some? then
        ghost var i :| 0 <= i < |claims[1..]| && claims[1..][i] == r.value && claims[1..][i].claimType == claimType
                       && forall j :: 0 <= j < i ==> claims[1..][j].claimType != claimType;
        assert claims[i + 1] == r.value;
        r
      else r
  }
}
