/** The signed-in caller as the controllers and the approval filter see it. */
module Callers {
  import opened Wrappers
  import Models
  import Text

  /** `HttpContext.User`: whether it is authenticated, its email claim and
      its identity name. */
  datatype Principal = Principal(isAuthenticated: bool, emailClaim: Option<string>, identityName: Option<string>)

  /** `FindFirstValue(ClaimTypes.Email) ?? Identity.Name`: the caller's
      email is one of its own two identifiers, missing only when both are,
      and the name is used only when there is no email claim at all. */
  function CallerEmail(p: Principal): (email: Option<string>)
    ensures email == p.emailClaim || email == p.identityName
    ensures email.None? <==> p.emailClaim.None? && p.identityName.None?
    ensures p.emailClaim.Some? ==> email == p.emailClaim
  {
    if p.emailClaim.Some? then p.emailClaim else p.identityName
  }

  /** The hard-coded site admin check of the controllers: a non-empty email
      equal to the admin address in any letter case. */
  predicate IsSiteAdmin(email: Option<string>) {
    !Text.IsNullOrEmpty(email) && Text.EqualsIgnoreCase(email.value, Models.SiteAdminEmail)
  }

  /** The admin check accepts exactly the addresses that lower-case to the
      admin address: the emptiness test excludes nothing more. */
  lemma IsSiteAdminIgnoresCase(e: string)
    ensures IsSiteAdmin(Some(e)) <==> Text.ToLower(e) == Models.SiteAdminEmail
  {
  }
}
