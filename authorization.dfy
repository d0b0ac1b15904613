/**
 * The role test the framework applies for `[Authorize(Roles = ...)]` and for
 * a policy built with `RequireRole(...)`, and what it decides once the
 * token-validated hook has enriched the principal.
 */
module Authorization {
  import opened Text
  import opened Claims
  import opened RoleMapping

  datatype Decision = Allow | Deny

  /** Allow exactly when some role claim carries `role` (case-sensitive, no wildcard). */
  function IsInRole(claims: seq<Claim>, role: string): (d: Decision)
    ensures d == Allow <==> RoleClaim(role) in claims
  {
    if exists i | 0 <= i < |claims| :: claims[i].claimType == RoleType && claims[i].value == role
    then Allow else Deny
  }

  /** A role is held after enrichment iff it was held before or one of the two rules derives it. */
  lemma IsInRoleAfterValidation(claims: seq<Claim>, role: string)
    ensures IsInRole(claims + DerivedRoles(claims), role) == Allow <==>
      IsInRole(claims, role) == Allow ||
      (role == EveryoneRole && HasNonEmpty(claims, UsernameType)) ||
      (HasNonEmpty(claims, MemberOfType) &&
       exists segment | segment in Split(FirstMemberOf(claims), ':') :: GroupRole(segment) == role)
  {
    DerivedRoleNames(claims, role);
    assert RoleClaim(role) in claims + DerivedRoles(claims) <==>
      RoleClaim(role) in claims || RoleClaim(role) in DerivedRoles(claims);
  }

  /** The `[Authorize(Roles = "Everyone")]` endpoint admits every token with a non-empty username. */
  lemma UsernameGrantsEveryone(claims: seq<Claim>)
    requires HasNonEmpty(claims, UsernameType)
    ensures IsInRole(claims + DerivedRoles(claims), EveryoneRole) == Allow
  {
    IsInRoleAfterValidation(claims, EveryoneRole);
  }

  /**
   * The lookup policy, configured with a role group, admits a token whose
   * first "memberof" claim lists that group in either documented form,
   * with or without further attributes.
   */
  lemma ListedGroupGrantsPolicy(claims: seq<Claim>, lookUpRoleGroup: string, attributes: Option<string>)
    requires PlainName(lookUpRoleGroup) && PlainAttributes(attributes)
    requires HasNonEmpty(claims, MemberOfType)
    requires Descriptor(lookUpRoleGroup, attributes) in Split(FirstMemberOf(claims), ':')
    ensures IsInRole(claims + DerivedRoles(claims), lookUpRoleGroup) == Allow
  {
    DescriptorNamesGroup(lookUpRoleGroup, attributes);
    IsInRoleAfterValidation(claims, lookUpRoleGroup);
  }

  /**
   * Absence never defaults to Allow: without role claims of its own and
   * without a non-empty "username" or "memberof" claim, every rule denies.
   */
  lemma NoSourceClaimsDenied(claims: seq<Claim>, role: string)
    requires forall i | 0 <= i < |claims| :: claims[i].claimType != RoleType
    requires !HasNonEmpty(claims, UsernameType) && !HasNonEmpty(claims, MemberOfType)
    ensures IsInRole(claims + DerivedRoles(claims), role) == Deny
  {
    IsInRoleAfterValidation(claims, role);
  }

  /** An identity holding a single role passes a rule exactly when the rule names that role. */
  lemma SingleRoleDecides(role: string, required: string)
    ensures IsInRole([RoleClaim(role)], required) == Allow <==> role == required
  {
    assert [RoleClaim(role)][0] == RoleClaim(role);
  }
}
