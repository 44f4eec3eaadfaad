/** The floor of claim release in terms of the attribute definitions themselves. */
module ClaimFloor {
  import opened GoValues
  import opened ClaimRelease
  import Strings

  // ----- what is withheld

  /** The fields that every user has. */
  predicate IsUserField(key: string) {
    || key == "user_id" || key == "preferred_username" || key == "email" || key == "email_verified"
    || key == "name" || key == "given_name" || key == "family_name" || key == "roles"
  }

  /** The claims that the protocols themselves write. */
  predicate IsProtocolClaim(name: string) {
    || name == "iss" || name == "sub" || name == "aud" || name == "exp" || name == "iat" || name == "nbf"
    || name == "jti" || name == "azp" || name == "nonce" || name == "at_hash" || name == "c_hash"
    || name == "acr" || name == "amr" || name == "sid"
  }

  predicate IsFirstDef(key: string, defs: seq<Def>, i: nat) {
    i < |defs| && defs[i].key == key && forall j :: 0 <= j < i ==> defs[j].key != key
  }

  /** No field of every user, and without a definition or first defined as private. */
  ghost predicate Withheld(key: string, defs: seq<Def>) {
    !IsUserField(key) && forall i: nat :: IsFirstDef(key, defs, i) ==> defs[i].visibility == Private
  }

  lemma {:induction false} DefFromFinds(key: string, defs: seq<Def>, i: nat) returns (k: nat)
    requires i <= |defs| && forall j :: 0 <= j < i ==> defs[j].key != key
    ensures DefFrom(key, defs, i).Some? ==> IsFirstDef(key, defs, k) && DefFrom(key, defs, i).value == defs[k]
    ensures DefFrom(key, defs, i).None? ==> forall j :: 0 <= j < |defs| ==> defs[j].key != key
    decreases |defs| - i
  {
    k := i;
    if i < |defs| && defs[i].key != key {
      k := DefFromFinds(key, defs, i + 1);
    }
  }

  /** A key may be released exactly when it is not withheld. */
  lemma ReleasableExactlyUnlessWithheld(key: string, defs: seq<Def>)
    ensures IsAttributeReleasable(key, defs) <==> !Withheld(key, defs)
  {
    var k := DefFromFinds(key, defs, 0);
    if DefFrom(key, defs, 0).Some? {
      assert IsFirstDef(key, defs, k);
      forall i: nat | IsFirstDef(key, defs, i) ensures i == k {
        assert !(i < k) && !(k < i);
      }
    } else {
      assert forall i: nat :: !IsFirstDef(key, defs, i);
    }
  }

  /** A claim type is reserved exactly when what is between its white space is a protocol claim in any case. */
  lemma ReservedExactlyForProtocolClaims(before: string, core: string, after: string, lower: char -> char)
    requires Strings.Trimmed(core) && Strings.All(before, Strings.IsSpace) && Strings.All(after, Strings.IsSpace)
    ensures IsReservedClaimType(before + (core + after), lower) <==> IsProtocolClaim(Lower(core, lower))
  {
    ReservedHoweverWritten(before, core, after, lower);
  }

  // ----- withheld attributes stay inside

  predicate Sources(rule: Rule, key: string) {
    rule.source == UserAttribute && rule.sourceKey == key
  }

  /** The policy takes its NameID or the values of a claim from the key. */
  ghost predicate Names(policy: Policy, key: string) {
    policy.nameIdSource == key || exists k :: 0 <= k < |policy.rules| && Sources(policy.rules[k], key)
  }

  /** Users who differ only in a withheld attribute get the same claims or the same refusal. */
  lemma WithheldIsInvisible(
    policy: Policy, a: Attributes, b: Attributes, key: string, defs: seq<Def>, lower: char -> char)
    requires Withheld(key, defs) && DifferOnlyAt(a, b, key)
    ensures IssuedWithFloor(policy, a, defs, lower) == IssuedWithFloor(policy, b, defs, lower)
  {
    ReleasableExactlyUnlessWithheld(key, defs);
    NonInterference(policy, a, b, defs, lower);
  }

  /** A policy that names a withheld attribute issues nothing at all. */
  lemma NamingWithheldIsRefused(policy: Policy, attrs: Attributes, key: string, defs: seq<Def>, lower: char -> char)
    requires Withheld(key, defs) && Names(policy, key)
    ensures IssuedWithFloor(policy, attrs, defs, lower).Refused?
  {
    ReleasableExactlyUnlessWithheld(key, defs);
    if policy.nameIdSource != key {
      var k :| 0 <= k < |policy.rules| && Sources(policy.rules[k], key);
      ValidatedFrom(policy.rules, 0, defs, lower);
      assert RuleRefusal(policy.rules[k], defs, lower).Some?;
    }
  }

  // ----- other attributes are issued

  lemma {:induction false} RefusedAttributeIsWithheld(
    rules: seq<Rule>, i: nat, defs: seq<Def>, lower: char -> char, key: string)
    requires i <= |rules| && ValidateFrom(rules, i, defs, lower) == Some(AttributeNotReleasable(key))
    ensures !IsAttributeReleasable(key, defs)
    decreases |rules| - i
  {
    if RuleRefusal(rules[i], defs, lower).None? {
      RefusedAttributeIsWithheld(rules, i + 1, defs, lower, key);
    }
  }

  predicate IsFloorRefusal(r: Refusal) {
    r.NameIdNotReleasable? || r.AttributeNotReleasable? || r.ReservedClaimType?
  }

  lemma {:induction false} ClaimsRefusedElsewhere(rules: seq<Rule>, n: nat, attrs: Attributes, nameId: string)
    requires n <= |rules|
    ensures Claims(rules, n, attrs, nameId).Refused? ==> !IsFloorRefusal(Claims(rules, n, attrs, nameId).reason)
  {
    if n > 0 {
      ClaimsRefusedElsewhere(rules, n - 1, attrs, nameId);
      StepRefusedElsewhere(rules, n - 1, attrs, nameId);
    }
  }

  lemma StepRefusedElsewhere(rules: seq<Rule>, i: nat, attrs: Attributes, nameId: string)
    requires i < |rules|
    ensures Step(rules, i, attrs, nameId).Refused? ==> !IsFloorRefusal(Step(rules, i, attrs, nameId).reason)
  {
  }

  /** Refusals at the floor name an attribute that is withheld, or a reserved claim type. */
  lemma FloorRefusalsAreDeserved(policy: Policy, attrs: Attributes, defs: seq<Def>, lower: char -> char, key: string)
    ensures IssuedWithFloor(policy, attrs, defs, lower) == Refused(NameIdNotReleasable(key)) ==> Withheld(key, defs)
    ensures IssuedWithFloor(policy, attrs, defs, lower) == Refused(AttributeNotReleasable(key)) ==> Withheld(key, defs)
  {
    ReleasableExactlyUnlessWithheld(key, defs);
    var refusal := ValidateClaimReleaseRules(policy.rules, defs, lower);
    if refusal == Some(AttributeNotReleasable(key)) {
      RefusedAttributeIsWithheld(policy.rules, 0, defs, lower, key);
    }
    if refusal.Some? {
      ValidateNamesNoNameId(policy.rules, 0, defs, lower);
    }
    var nameId := NameIdValue(policy, attrs);
    if nameId.Ok? {
      ClaimsRefusedElsewhere(policy.rules, |policy.rules|, attrs, nameId.value);
    }
  }

  lemma {:induction false} ValidateNamesNoNameId(rules: seq<Rule>, i: nat, defs: seq<Def>, lower: char -> char)
    requires i <= |rules| && ValidateFrom(rules, i, defs, lower).Some?
    ensures !ValidateFrom(rules, i, defs, lower).value.NameIdNotReleasable?
    decreases |rules| - i
  {
    if RuleRefusal(rules[i], defs, lower).None? {
      ValidateNamesNoNameId(rules, i + 1, defs, lower);
    }
  }

  /** Every value of an attribute that a rule names is in a claim of that rule's type, unless it is blank. */
  lemma NamedValuesAreIssued(policy: Policy, attrs: Attributes, defs: seq<Def>, lower: char -> char, k: nat, v: string)
    returns (i: nat)
    requires IssuedWithFloor(policy, attrs, defs, lower).Ok?
    requires k < |policy.rules| && policy.rules[k].source == UserAttribute
    requires v in Values(attrs, policy.rules[k].sourceKey) && !Strings.All(v, Strings.IsSpace)
    ensures var claims := IssuedWithFloor(policy, attrs, defs, lower).value.claims;
            i < |claims| && claims[i].claimType == policy.rules[k].claimType && v in claims[i].values
  {
    var issued := IssuedWithFloor(policy, attrs, defs, lower).value;
    var indices := IssuedAboveFloor(policy, attrs, defs, lower);
    var values := Values(attrs, policy.rules[k].sourceKey);
    BlankIsAllSpace(v);
    NonBlankHolds(values, |values|, v);
    assert values[..|values|] == values;
    assert v in NonBlank(values, |values|);
    ResolvedOfAttribute(policy.rules, k, attrs, issued.nameIdValue, indices, issued.claims);
    i :| 0 <= i < |indices| && indices[i] == k;
  }

  lemma ResolvedOfAttribute(
    rules: seq<Rule>, k: nat, attrs: Attributes, nameId: string, indices: seq<nat>, claims: seq<Claim>)
    requires ClaimsFollowRules(rules, |rules|, attrs, nameId, claims, indices)
    requires k < |rules| && rules[k].source == UserAttribute
    requires NonBlank(Values(attrs, rules[k].sourceKey), |Values(attrs, rules[k].sourceKey)|) != []
    ensures k in indices
    ensures Resolved(rules[k], attrs, nameId) ==
            Ok(NonBlank(Values(attrs, rules[k].sourceKey), |Values(attrs, rules[k].sourceKey)|))
  {
  }

  // ----- the NameID

  lemma {:induction false} FirstNonBlankIsFirst(values: seq<string>, i: nat) returns (k: nat)
    requires i <= |values| && FirstNonBlank(values, i).Some?
    ensures i <= k < |values| && FirstNonBlank(values, i).value == values[k] && !Blank(values[k])
    ensures forall j :: i <= j < k ==> Blank(values[j])
    decreases |values| - i
  {
    k := i;
    if Blank(values[i]) {
      k := FirstNonBlankIsFirst(values, i + 1);
    }
  }

  /** The NameID has the format of the policy and is the first value of its source that is not white space. */
  lemma NameIdIsFirstValue(policy: Policy, attrs: Attributes, defs: seq<Def>, lower: char -> char) returns (k: nat)
    requires IssuedWithFloor(policy, attrs, defs, lower).Ok?
    ensures var issued, values := IssuedWithFloor(policy, attrs, defs, lower).value, Values(attrs, policy.nameIdSource);
            && issued.nameIdFormat == policy.nameIdFormat
            && k < |values| && issued.nameIdValue == values[k] && !Strings.All(values[k], Strings.IsSpace)
            && forall j :: 0 <= j < k ==> Strings.All(values[j], Strings.IsSpace)
  {
    var values := Values(attrs, policy.nameIdSource);
    k := FirstNonBlankIsFirst(values, 0);
    forall j | 0 <= j < |values| ensures Blank(values[j]) <==> Strings.All(values[j], Strings.IsSpace) {
      BlankIsAllSpace(values[j]);
    }
  }

  // ----- the claims

  predicate WhiteSpace(s: string) {
    Strings.All(s, Strings.IsSpace)
  }

  /** The values that a rule stands for: all of its attribute that are not white space, in order, or one value. */
  ghost predicate StandsFor(rule: Rule, attrs: Attributes, nameId: string, values: seq<string>) {
    match rule.source
    case UserAttribute =>
      var held := Values(attrs, rule.sourceKey);
      exists positions :: Keeps(held, |held|, WhiteSpace, values, positions)
    case Fixed => values == if WhiteSpace(rule.fixedValue) then [] else [rule.fixedValue]
    case NameId => values == [nameId]
    case Unknown(_) => false
  }

  lemma ResolvedStandsFor(rule: Rule, attrs: Attributes, nameId: string)
    ensures Resolved(rule, attrs, nameId).Ok? ==> StandsFor(rule, attrs, nameId, Resolved(rule, attrs, nameId).value)
  {
    if rule.source == UserAttribute {
      var values := Values(attrs, rule.sourceKey);
      var positions := NonBlankInOrder(values);
      forall j | 0 <= j < |values| ensures Blank(values[j]) <==> WhiteSpace(values[j]) {
        BlankIsAllSpace(values[j]);
      }
      assert Keeps(values, |values|, WhiteSpace, NonBlank(values, |values|), positions);
    } else if rule.source == Fixed {
      BlankIsAllSpace(rule.fixedValue);
    }
  }

  /** One claim for each rule that stands for some value, in the order of the rules, with exactly its values. */
  lemma ClaimsAreTheirSources(policy: Policy, attrs: Attributes, defs: seq<Def>, lower: char -> char)
    returns (indices: seq<nat>)
    requires IssuedWithFloor(policy, attrs, defs, lower).Ok?
    ensures var issued, rules := IssuedWithFloor(policy, attrs, defs, lower).value, policy.rules;
            && |indices| == |issued.claims|
            && (forall i, j :: 0 <= i < j < |indices| ==> indices[i] < indices[j])
            && (forall i :: 0 <= i < |indices| ==>
                  && indices[i] < |rules| && issued.claims[i].claimType == rules[indices[i]].claimType
                  && StandsFor(rules[indices[i]], attrs, issued.nameIdValue, issued.claims[i].values)
                  && issued.claims[i].values != [])
            && (forall k :: 0 <= k < |rules| && k !in indices ==>
                  !rules[k].required && StandsFor(rules[k], attrs, issued.nameIdValue, []))
  {
    var nameId := IssuedWithFloor(policy, attrs, defs, lower).value.nameIdValue;
    indices := IssuedAboveFloor(policy, attrs, defs, lower);
    forall k | 0 <= k < |policy.rules|
      ensures Resolved(policy.rules[k], attrs, nameId).Ok? ==>
                StandsFor(policy.rules[k], attrs, nameId, Resolved(policy.rules[k], attrs, nameId).value)
    {
      ResolvedStandsFor(policy.rules[k], attrs, nameId);
    }
  }
}
