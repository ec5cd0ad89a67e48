/** Session tokens and the two request gates: `authMiddleware` (a bearer
    token the verifier accepts) and `requireAdmin` (the `ADMIN` role).
    Signing and verification are cryptography with a clock; `verify` stands
    for them. */
module Auth {
  import opened Options
  import opened Strings
  import opened Entities

  const BearerPrefix: string := "Bearer "
  const MissingToken: string := "Token ausente"
  const InvalidToken: string := "Token inválido"
  const AdminOnly: string := "Acesso somente para admin"

  /** The claims `signToken` signs: subject id, email, role and the master
      flag coerced to a boolean (`!!user.is_master`). */
  function SignedClaims(u: User): (c: Claims)
    ensures c.sub == u.id && c.email == u.email && c.role == u.role
    ensures c.isMaster <==> u.isMaster != 0
  {
    Claims(u.id, u.email, u.role, u.isMaster != 0)
  }

  /** The token of an `Authorization` header: what follows the exact,
      case-sensitive prefix `Bearer `, or nothing. */
  function BearerToken(authorization: Option<string>): (token: Option<string>)
    ensures token.Some? <==> authorization.Some? && StartsWith(authorization.value, BearerPrefix)
    ensures token.Some? ==> BearerPrefix + token.value == authorization.value
  {
    var header := OrElse(authorization, "");
    if StartsWith(header, BearerPrefix) then Some(header[|BearerPrefix|..]) else None
  }

  /** A token written after the prefix is read back unchanged. */
  lemma BearerRoundTrip(token: string)
    ensures BearerToken(Some(BearerPrefix + token)) == Some(token)
  {
    assert (BearerPrefix + token)[..|BearerPrefix|] == BearerPrefix;
    assert (BearerPrefix + token)[|BearerPrefix|..] == token;
  }

  datatype Gate = Admit(claims: Claims) | Refuse(response: Response)

  /** `authMiddleware`: no usable token gives 401 "Token ausente", a token
      the verifier rejects gives 401 "Token inválido", and an accepted one
      passes its claims on. */
  function Authenticate(authorization: Option<string>, verify: string -> Option<Claims>): (g: Gate)
    ensures var t := BearerToken(authorization);
      && ((t.None? || t.value == "") <==> g == Refuse(Reject(401, MissingToken)))
      && ((t.Some? && t.value != "" && verify(t.value).None?) <==> g == Refuse(Reject(401, InvalidToken)))
      && (g.Admit? <==> t.Some? && t.value != "" && verify(t.value).Some?)
      && (g.Admit? ==> g.claims == verify(t.value).value)
  {
    match BearerToken(authorization)
    case None => Refuse(Reject(401, MissingToken))
    case Some(token) =>
      if token == "" then Refuse(Reject(401, MissingToken))
      else match verify(token)
        case None => Refuse(Reject(401, InvalidToken))
        case Some(claims) => Admit(claims)
  }

  /** A header that is exactly `Bearer ` carries an empty token: refused as
      missing before the verifier is asked. */
  lemma BarePrefixIsMissingToken(verify: string -> Option<Claims>)
    ensures Authenticate(Some(BearerPrefix), verify) == Refuse(Reject(401, MissingToken))
  {
    assert BearerPrefix[|BearerPrefix|..] == "";
  }

  /** The scheme name is case-sensitive: `bearer <token>` is no token at all. */
  lemma LowercaseSchemeIsMissingToken(token: string, verify: string -> Option<Claims>)
    ensures Authenticate(Some("bearer " + token), verify) == Refuse(Reject(401, MissingToken))
  {
    assert ("bearer " + token)[0] == 'b' != BearerPrefix[0];
  }

  /** `requireAdmin`: the request goes on exactly when the caller's role is
      `ADMIN`; otherwise 403. */
  function RequireAdmin(user: Option<Claims>): (denial: Option<Response>)
    ensures denial.None? <==> user.Some? && user.value.role == AdminRole
    ensures denial.Some? ==> denial.value == Reject(403, AdminOnly)
  {
    if user.Some? && user.value.role == AdminRole then None else Some(Reject(403, AdminOnly))
  }
}
