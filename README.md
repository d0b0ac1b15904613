# Claims mapping of the JWT token-validated hook

This project models the claims-mapping core of a small ASP.NET Core API that
accepts bearer tokens from an OpenID Connect provider. When a token has been
validated, the hook `OnTokenValidated` built by `JwtEventHandler.CreateJwtEvents`
turns the provider's own claims into standard role claims:

- **Username rule.** If some `"username"` claim has a value of positive length,
  one role claim `"Everyone"` is derived.
- **Group rule.** If some `"memberof"` claim has a value of positive length, the
  value of the *first* `"memberof"` claim is split on `:`. Each descriptor gives
  one role: its text before the first `,`, with every `"CN="` removed.
- **Attach step.** If anything was derived, the derived claims become a new
  identity of the principal. Existing identities and claims are not touched.

All derived claims have the type
`http://schemas.microsoft.com/ws/2008/06/identity/claims/role`. The framework's
role checks then read that type: `[Authorize(Roles = "Everyone")]` on one
endpoint, and a policy that requires a configured role group on another.

Files:

- `text.dfy` (module `Text`): the .NET string operations the hook uses. `Split`
  with a one-character separator keeps empty pieces. `Remove` is ordinal
  replacement by the empty string, done in one left-to-right pass.
- `claims.dfy` (module `Claims`): the `Claim` value, the presence count, the
  first claim of a type, and the `Principal` class. The principal holds a
  sequence of identities that `AddIdentity` extends in place.
- `role_mapping.dfy` (module `RoleMapping`): the specification function
  `DerivedRoles` and its lemmas. The imperative `DeriveRoleClaims` builds the
  list of derived claims with a loop and is proved equal to `DerivedRoles`.
  `OnTokenValidated` attaches that list to the principal.
- `authorization.dfy` (module `Authorization`): the role-equality test behind
  both authorization rules, and what it decides after enrichment.

The model keeps the code's exact behaviour, quirks included:

- A blank value counts as present, because the test is on length alone.
- The code strips every `"CN="`, not only a leading one. One pass can
  even leave a `"CN="` behind (`Text.RemoveMayLeavePattern`).
- The group rule tests whether *any* `"memberof"` claim is non-empty. It then
  splits the *first* `"memberof"` claim, even an empty one. An empty first
  claim followed by a non-empty one yields one empty role
  (`RoleMapping.EmptyFirstMemberOf`).
- Nothing is deduplicated (`RoleMapping.DuplicateGroupsKept`). Running the hook
  again on the enriched principal derives the same roles a second time
  (`RoleMapping.RerunDerivesSameRoles`). Derived role claims are neither
  `"username"` nor `"memberof"` claims, so they never change what is derived.

## Model

| member | source | states |
|---|---|---|
| Text.IndexOf | cmgSample-OIDCSecured/JwtEventHandler.cs:67 | the result is the position of the first separator, or the length when there is none; no earlier character is the separator |
| Text.Split | cmgSample-OIDCSecured/JwtEventHandler.cs:64 | there is at least one piece; the first piece is the text before the first separator; no piece contains the separator |
| Text.SplitJoin | cmgSample-OIDCSecured/JwtEventHandler.cs:64 | joining the pieces with the separator gives back the original value, so splitting loses nothing |
| Text.JoinSplit | cmgSample-OIDCSecured/JwtEventHandler.cs:64 | pieces without the separator, once joined, split back into the same pieces |
| Text.SplitCount | cmgSample-OIDCSecured/JwtEventHandler.cs:64 | the number of pieces is one more than the number of separators |
| Text.SplitAfterFirst | cmgSample-OIDCSecured/JwtEventHandler.cs:64 | the first piece ends at the first separator, and the rest is split independently |
| Text.SplitWithoutSeparator | cmgSample-OIDCSecured/JwtEventHandler.cs:64 | a value without the separator is one piece, itself |
| Text.Remove | cmgSample-OIDCSecured/JwtEventHandler.cs:67 | removing the pattern never lengthens the string; with RemoveLeftmost and RemoveUnchangedIff the result is determined on every input |
| Text.RemoveLeftmost | cmgSample-OIDCSecured/JwtEventHandler.cs:67 | the text before the leftmost occurrence is kept, that occurrence is dropped and the rest is processed the same way, so every occurrence found by the scan is removed |
| Text.RemoveAddsNothing | cmgSample-OIDCSecured/JwtEventHandler.cs:67 | removal only deletes characters: a character absent from the input is absent from the result |
| Text.RemoveShrinks | cmgSample-OIDCSecured/JwtEventHandler.cs:67 | if the pattern occurs, the result is shorter by at least the pattern's length |
| Text.RemoveUnchangedIff | cmgSample-OIDCSecured/JwtEventHandler.cs:67 | the string comes back unchanged if and only if the pattern does not occur in it |
| Text.RemoveLeading | cmgSample-OIDCSecured/JwtEventHandler.cs:67 | a leading occurrence of the pattern is dropped |
| Text.RemoveMayLeavePattern | cmgSample-OIDCSecured/JwtEventHandler.cs:67 | one pass over "CCN=N==" gives "CN==", which still contains "CN=" |
| Claims.CountNonEmpty | cmgSample-OIDCSecured/JwtEventHandler.cs:52 | the count is positive if and only if some claim of that type has a value of positive length |
| Claims.CountNonEmptyAppend | cmgSample-OIDCSecured/JwtEventHandler.cs:61 | the count over two lists put together is the sum of their counts |
| Claims.FirstOfType | cmgSample-OIDCSecured/JwtEventHandler.cs:64 | the result is the default exactly when no claim has the type; otherwise it is a claim of that type, whatever its value |
| Claims.FirstOfTypeIsFirst | cmgSample-OIDCSecured/JwtEventHandler.cs:64 | no claim of the type comes before the one returned |
| Claims.FirstIndexOf | cmgSample-OIDCSecured/JwtEventHandler.cs:64 | the first claim of the type is found, whatever its value, and no earlier claim has that type |
| Claims.FirstIndexOfAppend | cmgSample-OIDCSecured/JwtEventHandler.cs:64 | claims appended after a claim of the type do not change which claim is first |
| Claims.Flatten | cmgSample-OIDCSecured/JwtEventHandler.cs:52-64 | the principal's claims are exactly the claims of its identities |
| Claims.FlattenAppend | cmgSample-OIDCSecured/JwtEventHandler.cs:76 | adding an identity appends its claims after all existing claims |
| Claims.Principal.AddIdentity | cmgSample-OIDCSecured/JwtEventHandler.cs:75-76 | the new identity follows the existing ones, and the principal's claims are the old claims followed by the new ones |
| RoleMapping.UsernameRoles | cmgSample-OIDCSecured/JwtEventHandler.cs:52-57 | at most one claim; exactly one if and only if some "username" claim is non-empty; it is the "Everyone" role claim |
| RoleMapping.FirstMemberOf | cmgSample-OIDCSecured/JwtEventHandler.cs:64 | the value is that of the first "memberof" claim, the one the default-or-first lookup returns |
| RoleMapping.GroupRoles | cmgSample-OIDCSecured/JwtEventHandler.cs:61-68 | no group roles if and only if no "memberof" claim is non-empty |
| RoleMapping.DescriptorRoles | cmgSample-OIDCSecured/JwtEventHandler.cs:65-68 | one role claim per descriptor, at the descriptor's position |
| RoleMapping.DescriptorRolesExtend | cmgSample-OIDCSecured/JwtEventHandler.cs:65-68 | one more descriptor appends its role at the end |
| RoleMapping.GroupRole | cmgSample-OIDCSecured/JwtEventHandler.cs:67 | a role never contains a comma |
| RoleMapping.GroupRoleIsFirstAttribute | cmgSample-OIDCSecured/JwtEventHandler.cs:67 | a role is the text before the first comma with "CN=" removed; without "CN=" in that text, it is that text unchanged |
| RoleMapping.GroupRoleOfDescriptor | cmgSample-OIDCSecured/JwtEventHandler.cs:60-67 | a descriptor "CN=name,attributes" or "CN=name" yields exactly name |
| RoleMapping.GroupRolesFollowDescriptors | cmgSample-OIDCSecured/JwtEventHandler.cs:64-68 | there are as many group roles as descriptors in the first "memberof" value, and role k comes from descriptor k |
| RoleMapping.GroupRoleCount | cmgSample-OIDCSecured/JwtEventHandler.cs:64 | the number of group roles is one more than the number of ':' in the first "memberof" value |
| RoleMapping.SingleDescriptor | cmgSample-OIDCSecured/JwtEventHandler.cs:64-67 | a first "memberof" value without ':' yields exactly one role |
| RoleMapping.EmptyFirstMemberOf | cmgSample-OIDCSecured/JwtEventHandler.cs:61-67 | an empty first "memberof" claim, with a non-empty later one, yields exactly one empty role |
| RoleMapping.LaterClaimsIgnored | cmgSample-OIDCSecured/JwtEventHandler.cs:64 | once a non-empty "memberof" claim is present, later claims change no group role |
| RoleMapping.DerivedRoles | cmgSample-OIDCSecured/JwtEventHandler.cs:56-67 | every derived claim has the role claim type |
| RoleMapping.NothingDerivedIff | cmgSample-OIDCSecured/JwtEventHandler.cs:71 | nothing is derived, so no identity is added, if and only if neither "username" nor "memberof" has a non-empty claim |
| RoleMapping.DescriptorRoleNames | cmgSample-OIDCSecured/JwtEventHandler.cs:65-68 | a role claim is among the descriptors' roles if and only if some descriptor names that role |
| RoleMapping.DerivedRoleNames | cmgSample-OIDCSecured/JwtEventHandler.cs:48-68 | a role is derived if and only if it is "Everyone" with a non-empty username, or a descriptor of the first "memberof" value names it |
| RoleMapping.DerivationIgnoresOtherClaims | cmgSample-OIDCSecured/JwtEventHandler.cs:52-64 | appended claims that are neither "username" nor "memberof" leave the derived roles unchanged |
| RoleMapping.RerunDerivesSameRoles | cmgSample-OIDCSecured/JwtEventHandler.cs:48-77 | on the enriched claims the hook derives the same roles again, so a second run duplicates them |
| RoleMapping.DeriveRoleClaims | cmgSample-OIDCSecured/JwtEventHandler.cs:48-69 | the list the loop builds equals the derived roles: "Everyone" first, then the group roles in descriptor order |
| RoleMapping.OnTokenValidated | cmgSample-OIDCSecured/JwtEventHandler.cs:44-80 | a new identity holding exactly the derived roles is added only when there is one; the principal's claims become the old claims followed by the derived ones |
| RoleMapping.WhitespaceUsernameCounts | cmgSample-OIDCSecured/JwtEventHandler.cs:52-56 | a username of one space still yields the "Everyone" role |
| RoleMapping.DescriptorNamesGroup | cmgSample-OIDCSecured/JwtEventHandler.cs:60-67 | a descriptor "CN=name" or "CN=name,attributes" holds no ':' and yields exactly name |
| RoleMapping.MemberOfRoundTrip | cmgSample-OIDCSecured/JwtEventHandler.cs:60-68 | groups written as ':'-separated descriptors, "CN=name" or "CN=name,attributes", come back as role claims with those names, in order |
| RoleMapping.DuplicateGroupsKept | cmgSample-OIDCSecured/JwtEventHandler.cs:65-68 | the same group listed twice yields two equal role claims |
| Authorization.IsInRole | cmgSample-OIDCSecured/Controllers/ValuesController.cs:14 | Allow if and only if the claims contain a role claim with exactly the required value |
| Authorization.IsInRoleAfterValidation | cmgSample-OIDCSecured/JwtEventHandler.cs:71-77 | after enrichment a role is held if and only if it was held before or one of the two rules derives it |
| Authorization.UsernameGrantsEveryone | cmgSample-OIDCSecured/Controllers/ValuesController.cs:12-14 | a token with a non-empty username passes the "Everyone" role rule once enriched |
| Authorization.ListedGroupGrantsPolicy | cmgSample-OIDCSecured/Startup.cs:56-57 | the policy configured with a role group admits a token whose first "memberof" value lists that group as "CN=group" or "CN=group,attributes" |
| Authorization.NoSourceClaimsDenied | cmgSample-OIDCSecured/Controllers/ValuesController.cs:22-24 | with no role claim and no non-empty "username" or "memberof" claim, every rule denies |
| Authorization.SingleRoleDecides | cmgSample-OIDCSecured/Startup.cs:56-57 | an identity with a single role passes a rule if and only if the rule names that role |

## Left out

- The failure hook `OnAuthenticationFailed` only writes a debug line and returns. It has no logic to model.
- The debug trace at the start of the validated hook and the completed task it returns are not modelled.
- Token signature, expiry and audience validation, and the fetch of the provider's discovery metadata, are done by the JWT bearer library over the network. The model starts from an already validated principal.
- CORS, MVC registration, the middleware pipeline and the process-wide personal-information logging switch are framework configuration.
- The endpoint bodies are constant responses and empty stubs. The framework's `[Authorize]` enforcement is reduced to the role-equality test `Authorization.IsInRole`.
- The configured role group of the lookup policy is a parameter (`lookUpRoleGroup`). Reading it from configuration, and the case where the key is missing, are not modelled.
- The framework's principal and identity types are reduced to a sequence of identities, each a sequence of (type, value) claims. The authentication type of the new identity, and which claim type each identity treats as its role type, are not modelled: every claim of the role type counts as a role.
