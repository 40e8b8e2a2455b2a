/**
 The claims operations of the HTTP-context security driver: whether the
 current user has a claim, the value of a claim read as a string or as a
 boolean, and adding or replacing a claim on the user's first identity.
 Lookups go through every identity of the principal; the update touches the
 first identity only.
 */
module SecurityDriver {
  import opened Results
  import opened Text
  import opened Claims

  // ---------------------------------------------------------------------
  // Lookups
  // ---------------------------------------------------------------------

  /** Lookups by type (`FindFirst`) compare claim types ignoring case. */
  predicate TypeMatches(c: Claim, claimType: string) {
    EqualsIgnoreCase(Some(c.claimType), Some(claimType))
  }

  /** Position `i` holds the first claim of `cs` whose type matches. */
  predicate FirstMatchAt(cs: seq<Claim>, claimType: string, i: int) {
    && 0 <= i < |cs|
    && TypeMatches(cs[i], claimType)
    && forall j | 0 <= j < i :: !TypeMatches(cs[j], claimType)
  }

  /** `ClaimsIdentity.FindFirst` over one identity's claims. */
  function FirstOfType(cs: seq<Claim>, claimType: string): (r: Option<Claim>)
    ensures r.None? <==> forall i | 0 <= i < |cs| :: !TypeMatches(cs[i], claimType)
    ensures r.Some? ==> exists i :: FirstMatchAt(cs, claimType, i) && cs[i] == r.value
    decreases |cs|
  {
    if |cs| == 0 then None
    else if TypeMatches(cs[0], claimType) then
      assert FirstMatchAt(cs, claimType, 0);
      Some(cs[0])
    else
      var r := FirstOfType(cs[1..], claimType);
      if r.Some? then FirstMatchShift(cs, claimType, r.value); r
      else r
  }

  /** A first match in the tail after a non-matching head is a first match
      of the whole list. */
  lemma {:induction false} FirstMatchShift(cs: seq<Claim>, claimType: string, c: Claim)
    requires |cs| > 0 && !TypeMatches(cs[0], claimType)
    requires exists i :: FirstMatchAt(cs[1..], claimType, i) && cs[1..][i] == c
    ensures exists i :: FirstMatchAt(cs, claimType, i) && cs[i] == c
  {
    var i :| FirstMatchAt(cs[1..], claimType, i) && cs[1..][i] == c;
    assert FirstMatchAt(cs, claimType, i + 1);
  }

  /** `ClaimsPrincipal.FindFirst`: the first match of the first identity
      that has one. */
  function FindFirst(ids: seq<Identity>, claimType: string): Option<Claim>
    decreases |ids|
  {
    if |ids| == 0 then None
    else
      var here := FirstOfType(ids[0].claims, claimType);
      if here.Some? then here else FindFirst(ids[1..], claimType)
  }

  lemma {:induction false} FirstOfTypeAppend(a: seq<Claim>, b: seq<Claim>, claimType: string)
    ensures FirstOfType(a, claimType).Some? ==> FirstOfType(a + b, claimType) == FirstOfType(a, claimType)
    ensures FirstOfType(a, claimType).None? ==> FirstOfType(a + b, claimType) == FirstOfType(b, claimType)
    decreases |a|
  {
    if |a| > 0 {
      assert (a + b)[1..] == a[1..] + b;
      FirstOfTypeAppend(a[1..], b, claimType);
    } else {
      assert a + b == b;
    }
  }

  /** Searching identity by identity finds the first match among all the
      principal's claims. */
  lemma {:induction false} FindFirstOverAllClaims(ids: seq<Identity>, claimType: string)
    ensures FindFirst(ids, claimType) == FirstOfType(ClaimsOf(ids), claimType)
    decreases |ids|
  {
    if |ids| > 0 {
      FindFirstOverAllClaims(ids[1..], claimType);
      FirstOfTypeAppend(ids[0].claims, ClaimsOf(ids[1..]), claimType);
    }
  }

  /** `HasClaim(claimType)`: some claim of some identity has that type,
      ignoring case. */
  function HasClaim(p: Principal, claimType: string): (r: bool)
    ensures r <==> exists i | 0 <= i < |AllClaims(p)| :: TypeMatches(AllClaims(p)[i], claimType)
  {
    FindFirstOverAllClaims(p.identities, claimType);
    assert AllClaims(p) == ClaimsOf(p.identities);
    FindFirst(p.identities, claimType).Some?
  }

  /** `GetClaimValue<string>`: the value of the first matching claim, or null. */
  function GetClaimString(p: Principal, claimType: string): (r: Option<string>)
    ensures r.None? <==> !HasClaim(p, claimType)
    ensures r.Some? ==> exists i :: FirstMatchAt(AllClaims(p), claimType, i) && AllClaims(p)[i].value == r.value
  {
    FindFirstOverAllClaims(p.identities, claimType);
    match FindFirst(p.identities, claimType)
    case None => None
    case Some(c) => Some(c.value)
  }

  /** `GetClaimValue<bool>`: true when the first matching claim's value is
      "true" ignoring case, or exactly "1"; false for a missing claim. */
  function GetClaimBool(p: Principal, claimType: string): (r: bool)
    ensures !HasClaim(p, claimType) ==> !r
    ensures r <==> exists i :: FirstMatchAt(AllClaims(p), claimType, i)
                              && (Lower(AllClaims(p)[i].value) == "true" || AllClaims(p)[i].value == "1")
  {
    var value := GetClaimString(p, claimType);
    EqualsIgnoreCase(value, Some("true")) || value == Some("1")
  }

  // ---------------------------------------------------------------------
  // Update
  // ---------------------------------------------------------------------

  const IdentityNotFound := "ClaimsIdentity not found and can not be updated."

  /** The claims of `cs` whose type is exactly `claimType` (`same`), or the
      claims of every other type (`!same`), in order. */
  function Select(cs: seq<Claim>, claimType: string, same: bool): seq<Claim>
    decreases |cs|
  {
    if |cs| == 0 then []
    else (if (cs[0].claimType == claimType) == same then [cs[0]] else []) + Select(cs[1..], claimType, same)
  }

  /** Selection distributes over concatenation. */
  lemma {:induction false} SelectAppend(a: seq<Claim>, b: seq<Claim>, claimType: string, same: bool)
    ensures Select(a + b, claimType, same) == Select(a, claimType, same) + Select(b, claimType, same)
    decreases |a|
  {
    if |a| == 0 {
      assert a + b == b;
    } else {
      var head := if (a[0].claimType == claimType) == same then [a[0]] else [];
      assert (a + b)[0] == a[0];
      assert (a + b)[1..] == a[1..] + b;
      SelectAppend(a[1..], b, claimType, same);
      assert head + (Select(a[1..], claimType, same) + Select(b, claimType, same))
          == (head + Select(a[1..], claimType, same)) + Select(b, claimType, same);
    }
  }

  /** Selecting from one claim. */
  lemma {:induction false} SelectOne(c: Claim, claimType: string, same: bool)
    ensures Select([c], claimType, same) == if (c.claimType == claimType) == same then [c] else []
  {
    assert [c][1..] == [];
  }

  /** Remove the first claim whose type is exactly `claimType`, if any
      (`HasClaim(m => m.Type == claimType)`, then `RemoveClaim` of the
      first such claim). */
  function RemoveFirstOfType(cs: seq<Claim>, claimType: string): seq<Claim>
    decreases |cs|
  {
    if |cs| == 0 then cs
    else if cs[0].claimType == claimType then cs[1..]
    else [cs[0]] + RemoveFirstOfType(cs[1..], claimType)
  }

  /** The position of the first claim whose type is exactly `claimType`,
      or -1 when there is none. */
  function ExactIndex(cs: seq<Claim>, claimType: string): (i: int)
    ensures -1 <= i < |cs|
    ensures i < 0 <==> forall j | 0 <= j < |cs| :: cs[j].claimType != claimType
    ensures i >= 0 ==> cs[i].claimType == claimType && forall j | 0 <= j < i :: cs[j].claimType != claimType
    decreases |cs|
  {
    if |cs| == 0 then -1
    else if cs[0].claimType == claimType then 0
    else
      var k := ExactIndex(cs[1..], claimType);
      if k < 0 then -1 else k + 1
  }

  /** Without a claim of that exact type nothing is removed; otherwise
      exactly the first such claim is cut out. */
  lemma {:induction false} RemoveFirstOfTypeSpec(cs: seq<Claim>, claimType: string)
    ensures var i := ExactIndex(cs, claimType);
            RemoveFirstOfType(cs, claimType) == if i < 0 then cs else cs[..i] + cs[i + 1..]
    decreases |cs|
  {
    if |cs| > 0 && cs[0].claimType != claimType {
      var tail := cs[1..];
      RemoveFirstOfTypeSpec(tail, claimType);
      var k := ExactIndex(tail, claimType);
      assert RemoveFirstOfType(cs, claimType) == [cs[0]] + RemoveFirstOfType(tail, claimType);
      assert ExactIndex(cs, claimType) == if k < 0 then -1 else k + 1;
      if k < 0 {
        assert cs == [cs[0]] + tail;
      } else {
        ConsCut(cs, k);
      }
    }
  }

  /** Cutting position `k + 1` out of `cs` is cutting position `k` out of its
      tail and putting the head back. */
  lemma {:induction false} ConsCut(cs: seq<Claim>, k: nat)
    requires k + 1 < |cs|
    ensures [cs[0]] + (cs[1..][..k] + cs[1..][k + 1..]) == cs[..k + 1] + cs[k + 2..]
  {
    assert cs[..k + 1] == [cs[0]] + cs[1..][..k];
    assert cs[k + 2..] == cs[1..][k + 1..];
  }

  /** `AddOrUpdateClaimAsync` up to, not including, signing the user in
      again: fails without an identity; otherwise the first identity loses
      its first claim of exactly that type, if any, and gains the new claim
      at the end. */
  function AddOrUpdateClaim(p: Principal, claimType: string, claimValue: string): (r: Result<Principal, string>)
    ensures r.Err? <==> |p.identities| == 0
    ensures r.Err? ==> r.error == IdentityNotFound
    ensures r.Ok? ==>
              && |r.value.identities| == |p.identities|
              && r.value.identities[1..] == p.identities[1..]
              && r.value.identities[0] == p.identities[0].(claims := r.value.identities[0].claims)
              && |r.value.identities[0].claims| > 0
              && r.value.identities[0].claims[|r.value.identities[0].claims| - 1] == Claim(claimType, claimValue)
  {
    if |p.identities| == 0 then Err(IdentityNotFound)
    else
      var identity := p.identities[0];
      var updated := identity.(claims := RemoveFirstOfType(identity.claims, claimType) + [Claim(claimType, claimValue)]);
      Ok(p.(identities := [updated] + p.identities[1..]))
  }

  /** The claim the update removes is the first one of exactly that type: the
      identity's claims are its old claims with that one cut out, followed by
      the new claim. */
  lemma {:induction false} UpdateRemovesFirst(p: Principal, claimType: string, claimValue: string)
    requires |p.identities| > 0
    ensures var before := p.identities[0].claims;
            var i := ExactIndex(before, claimType);
            AddOrUpdateClaim(p, claimType, claimValue).value.identities[0].claims
            == (if i < 0 then before else before[..i] + before[i + 1..]) + [Claim(claimType, claimValue)]
  {
    RemoveFirstOfTypeSpec(p.identities[0].claims, claimType);
  }

  /** The number of claims of the updated type stays the same when there was
      one, and becomes one when there was none; claims of other types keep
      their order and values. */
  lemma {:induction false} UpdateKeepsOtherClaims(p: Principal, claimType: string, claimValue: string)
    requires |p.identities| > 0
    ensures var before := p.identities[0].claims;
            var after := AddOrUpdateClaim(p, claimType, claimValue).value.identities[0].claims;
            && |Select(after, claimType, true)|
               == (if |Select(before, claimType, true)| == 0 then 1 else |Select(before, claimType, true)|)
            && Select(after, claimType, false) == Select(before, claimType, false)
  {
    var before := p.identities[0].claims;
    var removed := RemoveFirstOfType(before, claimType);
    var added := Claim(claimType, claimValue);
    assert AddOrUpdateClaim(p, claimType, claimValue).value.identities[0].claims == removed + [added];
    RemoveCounts(before, claimType);
    SelectAppend(removed, [added], claimType, true);
    SelectAppend(removed, [added], claimType, false);
    SelectOne(added, claimType, true);
    SelectOne(added, claimType, false);
  }

  /** Removing the first claim of the type lowers the count of that type by
      one, if there was one, and keeps the claims of other types. */
  lemma {:induction false} RemoveCounts(cs: seq<Claim>, claimType: string)
    ensures |Select(RemoveFirstOfType(cs, claimType), claimType, true)|
            == if |Select(cs, claimType, true)| == 0 then 0 else |Select(cs, claimType, true)| - 1
    ensures Select(RemoveFirstOfType(cs, claimType), claimType, false) == Select(cs, claimType, false)
  {
    RemoveFirstOfTypeSpec(cs, claimType);
    var i := ExactIndex(cs, claimType);
    if i >= 0 {
      assert RemoveFirstOfType(cs, claimType) == cs[..i] + cs[i + 1..];
      CutCounts(cs, i, claimType);
    } else {
      assert RemoveFirstOfType(cs, claimType) == cs;
      NoneSelected(cs, claimType);
    }
  }

  /** Cutting out a claim of the type lowers the count of that type by one
      and keeps the claims of other types. */
  lemma {:induction false} CutCounts(cs: seq<Claim>, i: int, claimType: string)
    requires 0 <= i < |cs| && cs[i].claimType == claimType
    ensures |Select(cs[..i] + cs[i + 1..], claimType, true)| + 1 == |Select(cs, claimType, true)|
    ensures Select(cs[..i] + cs[i + 1..], claimType, false) == Select(cs, claimType, false)
  {
    CutOut(cs, i, claimType, true);
    CutOut(cs, i, claimType, false);
  }

  /** Selecting around a claim of the type: it is selected exactly when
      claims of that type are. */
  lemma {:induction false} CutOut(cs: seq<Claim>, i: int, claimType: string, same: bool)
    requires 0 <= i < |cs| && cs[i].claimType == claimType
    ensures Select(cs, claimType, same)
            == Select(cs[..i], claimType, same) + (if same then [cs[i]] else []) + Select(cs[i + 1..], claimType, same)
    ensures Select(cs[..i] + cs[i + 1..], claimType, same)
            == Select(cs[..i], claimType, same) + Select(cs[i + 1..], claimType, same)
  {
    var front, back := cs[..i], cs[i + 1..];
    assert cs == (front + [cs[i]]) + back;
    SelectOne(cs[i], claimType, same);
    SelectAppend(front, [cs[i]], claimType, same);
    SelectAppend(front + [cs[i]], back, claimType, same);
    SelectAppend(front, back, claimType, same);
  }

  lemma {:induction false} NoneSelected(cs: seq<Claim>, claimType: string)
    requires forall i | 0 <= i < |cs| :: cs[i].claimType != claimType
    ensures Select(cs, claimType, true) == []
    ensures Select(cs, claimType, false) == cs
    decreases |cs|
  {
    if |cs| > 0 {
      NoneSelected(cs[1..], claimType);
      assert cs == [cs[0]] + cs[1..];
    }
  }

  /** After a successful update the user has a claim of that type. */
  lemma {:induction false} UpdateThenHasClaim(p: Principal, claimType: string, claimValue: string)
    requires |p.identities| > 0
    ensures HasClaim(AddOrUpdateClaim(p, claimType, claimValue).value, claimType)
  {
    var q := AddOrUpdateClaim(p, claimType, claimValue).value;
    var cs := q.identities[0].claims;
    assert q.identities == [q.identities[0]] + q.identities[1..];
    assert ClaimsOf(q.identities) == cs + ClaimsOf(q.identities[1..]);
    assert AllClaims(q)[|cs| - 1] == Claim(claimType, claimValue);
    assert TypeMatches(Claim(claimType, claimValue), claimType);
  }
}
