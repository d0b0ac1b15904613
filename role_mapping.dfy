/**
 * The token-validated hook: derives role claims from the "username" and
 * "memberof" claims of a validated principal and attaches them to it as a
 * new identity.
 */
module RoleMapping {
  import opened Text
  import opened Claims

  /** The role every user with a non-empty username receives. */
  const EveryoneRole := "Everyone"

  function RoleClaim(role: string): Claim
  {
    Claim(RoleType, role)
  }

  /**
   * The role named by one group descriptor: its first ','-separated piece
   * with every "CN=" removed.
   */
  function GroupRole(segment: string): (role: string)
    ensures ',' !in role
  {
    var firstAttribute := Split(segment, ',')[0];
    RemoveAddsNothing(firstAttribute, "CN=", ',');
    Remove(firstAttribute, "CN=")
  }

  /**
   * The role is the text before the first comma with "CN=" removed; when
   * that text holds no "CN=", it is the role unchanged.
   */
  lemma GroupRoleIsFirstAttribute(segment: string)
    ensures GroupRole(segment) == Remove(segment[..IndexOf(segment, ',')], "CN=")
    ensures !Contains(segment[..IndexOf(segment, ',')], "CN=") ==>
      GroupRole(segment) == segment[..IndexOf(segment, ',')]
  {
    RemoveUnchangedIff(segment[..IndexOf(segment, ',')], "CN=");
  }

  /** A descriptor in the documented "CN=<name>,<other attributes>" form yields `name`. */
  lemma GroupRoleOfDescriptor(name: string, attributes: string)
    requires ',' !in name && !Contains(name, "CN=")
    ensures GroupRole("CN=" + name + "," + attributes) == name
    ensures GroupRole("CN=" + name) == name
  {
    assert ',' !in "CN=" + name;
    SplitAfterFirst("CN=" + name, ',', attributes);
    assert "CN=" + name + "," + attributes == "CN=" + name + [','] + attributes;
    SplitWithoutSeparator("CN=" + name, ',');
    RemoveLeading("CN=", name);
    RemoveUnchangedIff(name, "CN=");
  }

  /** Rule one: one "Everyone" role when some "username" claim is non-empty (`Length > 0`). */
  function UsernameRoles(claims: seq<Claim>): (roles: seq<Claim>)
    ensures |roles| <= 1
    ensures |roles| == 1 <==> HasNonEmpty(claims, UsernameType)
    ensures forall k | 0 <= k < |roles| :: roles[k] == RoleClaim(EveryoneRole)
  {
    if CountNonEmpty(claims, UsernameType) > 0 then [RoleClaim(EveryoneRole)] else []
  }

  /** The value of the first "memberof" claim, the one the hook splits. */
  function FirstMemberOf(claims: seq<Claim>): (value: string)
    requires HasNonEmpty(claims, MemberOfType)
    ensures FirstOfType(claims, MemberOfType) == Some(Claim(MemberOfType, value))
  {
    FirstOfType(claims, MemberOfType).value.value
  }

  /**
   * Rule two: when some "memberof" claim is non-empty, one role per
   * ':'-separated descriptor of the FIRST "memberof" claim, whatever its length.
   */
  function GroupRoles(claims: seq<Claim>): (roles: seq<Claim>)
    ensures roles == [] <==> !HasNonEmpty(claims, MemberOfType)
  {
    if CountNonEmpty(claims, MemberOfType) > 0 then
      DescriptorRoles(Split(FirstMemberOf(claims), ':'))
    else []
  }

  /** One role claim per group descriptor, in order. */
  function DescriptorRoles(segments: seq<string>): (roles: seq<Claim>)
    ensures |roles| == |segments|
    ensures forall k | 0 <= k < |segments| :: roles[k] == RoleClaim(GroupRole(segments[k]))
  {
    seq(|segments|, k requires 0 <= k < |segments| => RoleClaim(GroupRole(segments[k])))
  }

  /** Taking one more descriptor adds its role at the end. */
  lemma DescriptorRolesExtend(head: seq<Claim>, segments: seq<string>, i: nat)
    requires i < |segments|
    ensures head + DescriptorRoles(segments[..i + 1]) == head + DescriptorRoles(segments[..i]) + [RoleClaim(GroupRole(segments[i]))]
  {
    assert segments[..i + 1] == segments[..i] + [segments[i]];
    assert DescriptorRoles(segments[..i + 1]) == DescriptorRoles(segments[..i]) + [RoleClaim(GroupRole(segments[i]))];
  }

  /** Group roles come one per descriptor, in the descriptors' order, none merged. */
  lemma GroupRolesFollowDescriptors(claims: seq<Claim>, k: int)
    requires HasNonEmpty(claims, MemberOfType)
    requires 0 <= k < |Split(FirstMemberOf(claims), ':')|
    ensures |GroupRoles(claims)| == |Split(FirstMemberOf(claims), ':')|
    ensures GroupRoles(claims)[k] == RoleClaim(GroupRole(Split(FirstMemberOf(claims), ':')[k]))
  {
  }

  /** There is one group role more than there are ':' in the first "memberof" value. */
  lemma GroupRoleCount(claims: seq<Claim>)
    requires HasNonEmpty(claims, MemberOfType)
    ensures |GroupRoles(claims)| == multiset(FirstMemberOf(claims))[':'] + 1
  {
    SplitCount(FirstMemberOf(claims), ':');
  }

  /** A "memberof" value without ':' yields exactly one group role. */
  lemma SingleDescriptor(claims: seq<Claim>)
    requires HasNonEmpty(claims, MemberOfType)
    requires ':' !in FirstMemberOf(claims)
    ensures GroupRoles(claims) == [RoleClaim(GroupRole(FirstMemberOf(claims)))]
  {
    SplitWithoutSeparator(FirstMemberOf(claims), ':');
  }

  /**
   * The presence test looks at every "memberof" claim but the split takes the
   * first one: an empty first claim followed by a non-empty one yields a
   * single empty role.
   */
  lemma EmptyFirstMemberOf(claims: seq<Claim>)
    requires HasNonEmpty(claims, MemberOfType)
    requires FirstMemberOf(claims) == ""
    ensures GroupRoles(claims) == [RoleClaim("")]
  {
    SplitWithoutSeparator("", ':');
    assert GroupRole("") == "";
  }

  /** Once a non-empty "memberof" claim is present, claims after it contribute no group roles. */
  lemma LaterClaimsIgnored(claims: seq<Claim>, later: seq<Claim>)
    requires HasNonEmpty(claims, MemberOfType)
    ensures GroupRoles(claims + later) == GroupRoles(claims)
  {
    CountNonEmptyAppend(claims, later, MemberOfType);
    FirstIndexOfAppend(claims, later, MemberOfType);
  }

  /** All role claims the hook derives, "Everyone" first, then the group roles. */
  function DerivedRoles(claims: seq<Claim>): (roles: seq<Claim>)
    ensures forall k | 0 <= k < |roles| :: roles[k].claimType == RoleType
  {
    UsernameRoles(claims) + GroupRoles(claims)
  }

  /** Nothing is derived, and so no identity is added, exactly when neither rule applies. */
  lemma NothingDerivedIff(claims: seq<Claim>)
    ensures DerivedRoles(claims) == [] <==>
      !HasNonEmpty(claims, UsernameType) && !HasNonEmpty(claims, MemberOfType)
  {
    assert |DerivedRoles(claims)| == |UsernameRoles(claims)| + |GroupRoles(claims)|;
  }

  /** A descriptor list yields exactly the roles its descriptors name. */
  lemma DescriptorRoleNames(segments: seq<string>, role: string)
    ensures RoleClaim(role) in DescriptorRoles(segments) <==>
      exists segment | segment in segments :: GroupRole(segment) == role
  {
    var roles := DescriptorRoles(segments);
    if RoleClaim(role) in roles {
      var k :| 0 <= k < |roles| && roles[k] == RoleClaim(role);
      assert segments[k] in segments;
    }
    if exists segment | segment in segments :: GroupRole(segment) == role {
      var segment :| segment in segments && GroupRole(segment) == role;
      var k :| 0 <= k < |segments| && segments[k] == segment;
      assert roles[k] == RoleClaim(role);
    }
  }

  /** Which role names the hook derives, stated on the claims themselves. */
  lemma DerivedRoleNames(claims: seq<Claim>, role: string)
    ensures RoleClaim(role) in DerivedRoles(claims) <==>
      (role == EveryoneRole && HasNonEmpty(claims, UsernameType)) ||
      (HasNonEmpty(claims, MemberOfType) &&
       exists segment | segment in Split(FirstMemberOf(claims), ':') :: GroupRole(segment) == role)
  {
    var names := UsernameRoles(claims);
    var groups := GroupRoles(claims);
    assert RoleClaim(role) in names + groups <==> RoleClaim(role) in names || RoleClaim(role) in groups;
    if HasNonEmpty(claims, MemberOfType) {
      DescriptorRoleNames(Split(FirstMemberOf(claims), ':'), role);
    }
  }

  /** Claims of other types appended to the principal leave the derivation unchanged. */
  lemma DerivationIgnoresOtherClaims(claims: seq<Claim>, others: seq<Claim>)
    requires HasNoneOfType(others, UsernameType) && HasNoneOfType(others, MemberOfType)
    ensures DerivedRoles(claims + others) == DerivedRoles(claims)
  {
    CountNonEmptyAppend(claims, others, UsernameType);
    CountNonEmptyAppend(claims, others, MemberOfType);
    FirstIndexOfAppend(claims, others, MemberOfType);
    assert CountNonEmpty(others, MemberOfType) == 0 && CountNonEmpty(others, UsernameType) == 0;
  }

  /**
   * The hook is not idempotent: run again on the principal it enriched, it
   * derives the same roles a second time, so nothing is deduplicated.
   */
  lemma RerunDerivesSameRoles(claims: seq<Claim>)
    ensures DerivedRoles(claims + DerivedRoles(claims)) == DerivedRoles(claims)
  {
    DerivationIgnoresOtherClaims(claims, DerivedRoles(claims));
  }

  /**
   * Lines 48-69 of the hook: accumulate the derived claims in a list, the
   * "Everyone" claim first, then one claim per descriptor in a loop.
   */
  method DeriveRoleClaims(principalClaims: seq<Claim>) returns (claims: seq<Claim>)
    ensures claims == DerivedRoles(principalClaims)
  {
    claims := [];
    var claimUserIdVal := CountNonEmpty(principalClaims, UsernameType);
    if claimUserIdVal > 0 {
      claims := claims + [RoleClaim(EveryoneRole)];
    }
    ghost var head := claims;
    assert head == UsernameRoles(principalClaims);
    var claimMemberOfVal := CountNonEmpty(principalClaims, MemberOfType);
    if claimMemberOfVal > 0 {
      var first := FirstOfType(principalClaims, MemberOfType);
      var membersOfList := Split(first.value.value, ':');
      for i := 0 to |membersOfList|
        invariant claims == head + DescriptorRoles(membersOfList[..i])
      {
        DescriptorRolesExtend(head, membersOfList, i);
        claims := claims + [RoleClaim(GroupRole(membersOfList[i]))];
      }
      assert membersOfList[..|membersOfList|] == membersOfList;
      assert claims == head + GroupRoles(principalClaims);
    } else {
      assert GroupRoles(principalClaims) == [];
    }
  }

  /**
   * The hook: the derived claims become a new identity of the principal when
   * there is at least one; the existing identities and claims stay as they were.
   */
  method OnTokenValidated(principal: Principal)
    modifies principal
    ensures principal.identities == old(principal.identities) +
      (if DerivedRoles(old(principal.Claims())) == [] then [] else [DerivedRoles(old(principal.Claims()))])
    ensures principal.Claims() == old(principal.Claims()) + DerivedRoles(old(principal.Claims()))
  {
    var claims := DeriveRoleClaims(principal.Claims());
    if |claims| > 0 {
      principal.AddIdentity(claims);
    }
  }

  /** "username" values are only tested for length, so a blank one still yields "Everyone". */
  lemma WhitespaceUsernameCounts()
    ensures DerivedRoles([Claim("username", " ")]) == [RoleClaim(EveryoneRole)]
  {
    assert IsNonEmptyOf([Claim("username", " ")][0], UsernameType);
  }

  /**
   * A group descriptor in one of the documented forms: "CN=<name>" alone, or
   * "CN=<name>,<attributes>".
   */
  function Descriptor(name: string, attributes: Option<string>): string
  {
    match attributes
    case None => "CN=" + name
    case Some(rest) => "CN=" + name + "," + rest
  }

  /** A name the descriptor format can carry and the mapping gives back intact. */
  predicate PlainName(name: string)
  {
    ',' !in name && ':' !in name && !Contains(name, "CN=")
  }

  /** Attributes that do not run into the next descriptor. */
  predicate PlainAttributes(attributes: Option<string>)
  {
    attributes.None? || ':' !in attributes.value
  }

  /** A descriptor names its group and holds no ':'. */
  lemma DescriptorNamesGroup(name: string, attributes: Option<string>)
    requires PlainName(name) && PlainAttributes(attributes)
    ensures ':' !in Descriptor(name, attributes)
    ensures GroupRole(Descriptor(name, attributes)) == name
  {
    assert ':' !in "CN=";
    match attributes
    case None =>
      GroupRoleOfDescriptor(name, "");
    case Some(rest) =>
      GroupRoleOfDescriptor(name, rest);
  }

  /**
   * Round trip of the documented format: groups written as ':'-separated
   * descriptors in the first "memberof" claim come back as role claims with
   * the groups' names, one per group, in order.
   */
  lemma MemberOfRoundTrip(claims: seq<Claim>, names: seq<string>, attributes: seq<Option<string>>)
    requires |names| == |attributes| > 0
    requires forall k | 0 <= k < |names| :: PlainName(names[k]) && PlainAttributes(attributes[k])
    requires HasNonEmpty(claims, MemberOfType)
    requires FirstMemberOf(claims) ==
      Join(seq(|names|, k requires 0 <= k < |names| => Descriptor(names[k], attributes[k])), ':')
    ensures |GroupRoles(claims)| == |names|
    ensures forall k | 0 <= k < |names| :: GroupRoles(claims)[k] == RoleClaim(names[k])
  {
    var descriptors := seq(|names|, k requires 0 <= k < |names| => Descriptor(names[k], attributes[k]));
    forall k | 0 <= k < |names|
      ensures ':' !in descriptors[k] && GroupRole(descriptors[k]) == names[k]
    {
      DescriptorNamesGroup(names[k], attributes[k]);
    }
    JoinSplit(descriptors, ':');
  }

  /** Two descriptors naming the same group yield the role twice: nothing is deduplicated. */
  lemma DuplicateGroupsKept(claims: seq<Claim>, name: string, attributes: Option<string>)
    requires PlainName(name) && PlainAttributes(attributes)
    requires HasNonEmpty(claims, MemberOfType)
    requires FirstMemberOf(claims) == Descriptor(name, attributes) + ":" + Descriptor(name, attributes)
    ensures GroupRoles(claims) == [RoleClaim(name), RoleClaim(name)]
  {
    var descriptor := Descriptor(name, attributes);
    DescriptorNamesGroup(name, attributes);
    SplitWithoutSeparator(descriptor, ':');
    SplitAfterFirst(descriptor, ':', descriptor);
    assert Split(FirstMemberOf(claims), ':') == [descriptor, descriptor];
  }
}
