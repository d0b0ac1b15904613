/**
 * Claims as the token-validated hook sees them: (type, value) string pairs,
 * the LINQ queries it runs over them, and the principal whose identities it
 * extends.
 */
module Claims {

  datatype Option<T> = None | Some(value: T)

  /** A claim: a provider-chosen type identifier and a value. */
  datatype Claim = Claim(claimType: string, value: string)

  const UsernameType := "username"
  const MemberOfType := "memberof"
  /** The identifier the framework's role checks read (ClaimTypes.Role). */
  const RoleType := "http://schemas.microsoft.com/ws/2008/06/identity/claims/role"

  /** The claim has type `t` and a value of positive length (whitespace counts). */
  predicate IsNonEmptyOf(c: Claim, t: string)
  {
    c.claimType == t && |c.value| > 0
  }

  predicate HasNonEmpty(claims: seq<Claim>, t: string)
  {
    exists i | 0 <= i < |claims| :: IsNonEmptyOf(claims[i], t)
  }

  predicate HasNoneOfType(claims: seq<Claim>, t: string)
  {
    forall i | 0 <= i < |claims| :: claims[i].claimType != t
  }

  /** How many claims have type `t` and a value of positive length (the hook's presence test). */
  function CountNonEmpty(claims: seq<Claim>, t: string): (n: nat)
    ensures n <= |claims|
    ensures n > 0 <==> HasNonEmpty(claims, t)
  {
    if claims == [] then 0
    else
      assert forall i | 1 <= i < |claims| :: claims[i] == claims[1..][i - 1];
      (if IsNonEmptyOf(claims[0], t) then 1 else 0) + CountNonEmpty(claims[1..], t)
  }

  /** Position of the first claim of type `t`, or `|claims|` when there is none. */
  function FirstIndexOf(claims: seq<Claim>, t: string): (i: nat)
    ensures i <= |claims|
    ensures forall k | 0 <= k < i :: claims[k].claimType != t
    ensures i < |claims| ==> claims[i].claimType == t
  {
    if claims == [] || claims[0].claimType == t then 0
    else 1 + FirstIndexOf(claims[1..], t)
  }

  /** The first claim of type `t`, whatever its value, or `None` (the framework's null default). */
  function FirstOfType(claims: seq<Claim>, t: string): (r: Option<Claim>)
    ensures r.None? <==> HasNoneOfType(claims, t)
    ensures r.Some? ==> r.value.claimType == t
  {
    var i := FirstIndexOf(claims, t);
    if i < |claims| then Some(claims[i]) else None
  }

  /** No claim of type `t` comes before the one `FirstOfType` returns. */
  lemma FirstOfTypeIsFirst(claims: seq<Claim>, t: string, i: int)
    requires 0 <= i < |claims| && claims[i].claimType == t
    ensures FirstOfType(claims, t).Some?
    ensures FirstOfType(claims, t).value in claims[..i + 1]
  {
    var j := FirstIndexOf(claims, t);
    assert j <= i;
    assert claims[..i + 1][j] == claims[j];
  }

  lemma {:induction false} CountNonEmptyAppend(c: seq<Claim>, d: seq<Claim>, t: string)
    ensures CountNonEmpty(c + d, t) == CountNonEmpty(c, t) + CountNonEmpty(d, t)
  {
    if c != [] {
      assert (c + d)[1..] == c[1..] + d;
      CountNonEmptyAppend(c[1..], d, t);
    } else {
      assert c + d == d;
    }
  }

  /** Claims appended after a claim of type `t` do not change which one comes first. */
  lemma {:induction false} FirstIndexOfAppend(c: seq<Claim>, d: seq<Claim>, t: string)
    ensures FirstIndexOf(c + d, t) ==
      if FirstIndexOf(c, t) < |c| then FirstIndexOf(c, t) else |c| + FirstIndexOf(d, t)
  {
    if c == [] {
      assert c + d == d;
    } else {
      assert (c + d)[0] == c[0];
      assert (c + d)[1..] == c[1..] + d;
      if c[0].claimType != t {
        FirstIndexOfAppend(c[1..], d, t);
      }
    }
  }

  /** The claims of all identities, in identity order (`ClaimsPrincipal.Claims`). */
  function Flatten(identities: seq<seq<Claim>>): (claims: seq<Claim>)
    ensures forall c :: c in claims <==> exists k | 0 <= k < |identities| :: c in identities[k]
  {
    if identities == [] then [] else identities[0] + Flatten(identities[1..])
  }

  lemma {:induction false} FlattenAppend(identities: seq<seq<Claim>>, identity: seq<Claim>)
    ensures Flatten(identities + [identity]) == Flatten(identities) + identity
  {
    if identities == [] {
      assert [] + [identity] == [identity];
      assert [identity][1..] == [];
    } else {
      assert (identities + [identity])[1..] == identities[1..] + [identity];
      FlattenAppend(identities[1..], identity);
    }
  }

  /** The request's principal: an ordered list of identities, each a list of claims. */
  class Principal {
    var identities: seq<seq<Claim>>

    constructor (identity: seq<Claim>)
      ensures identities == [identity]
      ensures Claims() == identity
    {
      identities := [identity];
      new;
      assert [identity][1..] == [];
      assert Flatten([identity]) == identity + [];
    }

    function Claims(): seq<Claim>
      reads this
    {
      Flatten(identities)
    }

    /** Attaching an identity: it goes after the existing ones, which stay as they are. */
    method AddIdentity(identity: seq<Claim>)
      modifies this
      ensures identities == old(identities) + [identity]
      ensures Claims() == old(Claims()) + identity
    {
      FlattenAppend(identities, identity);
      identities := identities + [identity];
    }
  }
}
