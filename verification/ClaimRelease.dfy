/** Claim issuance and the floor below it: which attributes may be released, and as which claims. */
module ClaimRelease {
  import opened GoValues
  import Strings

  datatype Result<+T, +E> = Ok(value: T) | Refused(reason: E)

  datatype Source = UserAttribute | Fixed | NameId | Unknown(text: string)

  datatype Rule = Rule(claimType: string, source: Source, sourceKey: string, fixedValue: string, required: bool)

  datatype Policy = Policy(nameIdFormat: string, nameIdSource: string, rules: seq<Rule>)

  datatype Visibility = Private | SelfReadable | AdminReadable | ClaimExposed

  datatype Def = Def(key: string, visibility: Visibility)

  datatype Claim = Claim(claimType: string, values: seq<string>)

  datatype Issuance = Issuance(nameIdFormat: string, nameIdValue: string, claims: seq<Claim>)

  datatype Refusal =
    | NameIdNotReleasable(key: string)
    | ReservedClaimType(claimType: string)
    | AttributeNotReleasable(key: string)
    | FormatMissing
    | SourceAttributeMissing
    | NameIdWithoutValue(key: string)
    | ClaimTypeMissing(rule: nat)
    | SourceUnknown(rule: nat, claimType: string)
    | SourceKeyMissing(claimType: string)
    | RequiredUnresolved(claimType: string)

  type Attributes = map<string, seq<string>>

  const CORE_KEYS: set<string> := {
    "user_id", "preferred_username", "email", "email_verified", "name", "given_name", "family_name", "roles"
  }

  const RESERVED: set<string> := {
    "iss", "sub", "aud", "exp", "iat", "nbf", "jti", "azp", "nonce", "at_hash", "c_hash", "acr", "amr", "sid"
  }

  predicate Blank(s: string) {
    Strings.TrimSpace(s) == ""
  }

  /** What counts as empty is what consists of white space alone. */
  lemma BlankIsAllSpace(s: string)
    ensures Blank(s) <==> Strings.All(s, Strings.IsSpace)
  {
    Strings.TrimLeavesNothingOfSpace(s);
  }

  /** A key that is not there has no values. */
  function Values(attrs: Attributes, key: string): seq<string> {
    if key in attrs then attrs[key] else []
  }

  // ----- the floor

  /** strings.ToLower, given the lower case of each character. */
  function Lower(s: string, lower: char -> char): string {
    seq(|s|, i requires 0 <= i < |s| => lower(s[i]))
  }

  predicate IsReservedClaimType(claimType: string, lower: char -> char) {
    Lower(Strings.TrimSpace(claimType), lower) in RESERVED
  }

  /** The first definition of a key from index i on. */
  function DefFrom(key: string, defs: seq<Def>, i: nat): Option<Def>
    requires i <= |defs|
    decreases |defs| - i
  {
    if i == |defs| then None else if defs[i].key == key then Some(defs[i]) else DefFrom(key, defs, i + 1)
  }

  predicate IsAttributeReleasable(key: string, defs: seq<Def>) {
    key in CORE_KEYS || (DefFrom(key, defs, 0).Some? && DefFrom(key, defs, 0).value.visibility != Private)
  }

  function RuleRefusal(rule: Rule, defs: seq<Def>, lower: char -> char): Option<Refusal> {
    if IsReservedClaimType(rule.claimType, lower) then Some(ReservedClaimType(rule.claimType))
    else if rule.source == UserAttribute && !IsAttributeReleasable(rule.sourceKey, defs) then
      Some(AttributeNotReleasable(rule.sourceKey))
    else None
  }

  function ValidateFrom(rules: seq<Rule>, i: nat, defs: seq<Def>, lower: char -> char): Option<Refusal>
    requires i <= |rules|
    decreases |rules| - i
  {
    if i == |rules| then None
    else if RuleRefusal(rules[i], defs, lower).Some? then RuleRefusal(rules[i], defs, lower)
    else ValidateFrom(rules, i + 1, defs, lower)
  }

  function ValidateClaimReleaseRules(rules: seq<Rule>, defs: seq<Def>, lower: char -> char): Option<Refusal> {
    ValidateFrom(rules, 0, defs, lower)
  }

  // ----- issuing claims

  /** The first n values without those to drop. */
  function Without(values: seq<string>, n: nat, drop: string -> bool): seq<string>
    requires n <= |values|
  {
    if n == 0 then []
    else if drop(values[n - 1]) then Without(values, n - 1, drop)
    else Without(values, n - 1, drop) + [values[n - 1]]
  }

  function NonBlank(values: seq<string>, n: nat): seq<string>
    requires n <= |values|
  {
    Without(values, n, Blank)
  }

  method NonEmpty(values: seq<string>) returns (kept: seq<string>)
    ensures kept == NonBlank(values, |values|)
  {
    kept := [];
    for i := 0 to |values|
      invariant kept == NonBlank(values, i)
    {
      if Strings.TrimSpace(values[i]) != "" {
        kept := kept + [values[i]];
      }
    }
  }

  function FirstNonBlank(values: seq<string>, i: nat): Option<string>
    requires i <= |values|
    decreases |values| - i
  {
    if i == |values| then None else if !Blank(values[i]) then Some(values[i]) else FirstNonBlank(values, i + 1)
  }

  /** The values of a claim, from the attributes, the rule itself or the NameID. */
  function Resolved(rule: Rule, attrs: Attributes, nameId: string): Result<seq<string>, Refusal> {
    match rule.source
    case UserAttribute =>
      if Blank(rule.sourceKey) then Refused(SourceKeyMissing(rule.claimType))
      else Ok(NonBlank(Values(attrs, rule.sourceKey), |Values(attrs, rule.sourceKey)|))
    case Fixed => Ok(if Blank(rule.fixedValue) then [] else [rule.fixedValue])
    case NameId => Ok([nameId])
    case Unknown(_) => Refused(SourceUnknown(0, rule.claimType))
  }

  method ResolveRule(rule: Rule, attrs: Attributes, nameId: string) returns (values: Result<seq<string>, Refusal>)
    ensures values == Resolved(rule, attrs, nameId)
  {
    match rule.source {
      case UserAttribute =>
        if Blank(rule.sourceKey) {
          return Refused(SourceKeyMissing(rule.claimType));
        }
        var kept := NonEmpty(Values(attrs, rule.sourceKey));
        return Ok(kept);
      case Fixed =>
        return Ok(if Blank(rule.fixedValue) then [] else [rule.fixedValue]);
      case NameId =>
        return Ok([nameId]);
      case Unknown(_) =>
        return Refused(SourceUnknown(0, rule.claimType));
    }
  }

  /** What the rule at an index adds: nothing, or one claim. */
  function Step(rules: seq<Rule>, i: nat, attrs: Attributes, nameId: string): Result<seq<Claim>, Refusal>
    requires i < |rules|
  {
    var rule := rules[i];
    if Blank(rule.claimType) then Refused(ClaimTypeMissing(i))
    else if rule.source.Unknown? then Refused(SourceUnknown(i, rule.claimType))
    else
      var values := Resolved(rule, attrs, nameId);
      if values.Refused? then Refused(values.reason)
      else if values.value != [] then Ok([Claim(rule.claimType, values.value)])
      else if rule.required then Refused(RequiredUnresolved(rule.claimType))
      else Ok([])
  }

  method IssueRule(rules: seq<Rule>, i: nat, attrs: Attributes, nameId: string)
    returns (step: Result<seq<Claim>, Refusal>)
    requires i < |rules|
    ensures step == Step(rules, i, attrs, nameId)
  {
    var rule := rules[i];
    if Blank(rule.claimType) {
      return Refused(ClaimTypeMissing(i));
    }
    if rule.source.Unknown? {
      return Refused(SourceUnknown(i, rule.claimType));
    }
    var values := ResolveRule(rule, attrs, nameId);
    if values.Refused? {
      return Refused(values.reason);
    }
    if values.value == [] {
      return if rule.required then Refused(RequiredUnresolved(rule.claimType)) else Ok([]);
    }
    return Ok([Claim(rule.claimType, values.value)]);
  }

  function Claims(rules: seq<Rule>, n: nat, attrs: Attributes, nameId: string): Result<seq<Claim>, Refusal>
    requires n <= |rules|
  {
    if n == 0 then Ok([])
    else
      var before := Claims(rules, n - 1, attrs, nameId);
      if before.Refused? then before
      else
        var step := Step(rules, n - 1, attrs, nameId);
        if step.Refused? then step else Ok(before.value + step.value)
  }

  lemma {:induction false} RefusalSticks(rules: seq<Rule>, n: nat, m: nat, attrs: Attributes, nameId: string)
    requires n <= m <= |rules| && Claims(rules, n, attrs, nameId).Refused?
    ensures Claims(rules, m, attrs, nameId) == Claims(rules, n, attrs, nameId)
  {
    if n < m {
      RefusalSticks(rules, n, m - 1, attrs, nameId);
    }
  }

  lemma AfterStep(rules: seq<Rule>, n: nat, attrs: Attributes, nameId: string, list: seq<Claim>)
    requires n < |rules| && Claims(rules, n, attrs, nameId) == Ok(list)
    ensures var step := Step(rules, n, attrs, nameId);
            if step.Refused? then Claims(rules, |rules|, attrs, nameId) == step
            else Claims(rules, n + 1, attrs, nameId) == Ok(list + step.value)
  {
    if Step(rules, n, attrs, nameId).Refused? {
      RefusalSticks(rules, n + 1, |rules|, attrs, nameId);
    }
  }

  /** The loop over the rules: the first refusal is the result. */
  method IssueRules(rules: seq<Rule>, attrs: Attributes, nameId: string) returns (claims: Result<seq<Claim>, Refusal>)
    ensures claims == Claims(rules, |rules|, attrs, nameId)
  {
    var list: seq<Claim> := [];
    for i := 0 to |rules|
      invariant Claims(rules, i, attrs, nameId) == Ok(list)
    {
      AfterStep(rules, i, attrs, nameId, list);
      var step := IssueRule(rules, i, attrs, nameId);
      if step.Refused? {
        return step;
      }
      list := list + step.value;
    }
    return Ok(list);
  }

  function NameIdValue(policy: Policy, attrs: Attributes): Result<string, Refusal> {
    if Blank(policy.nameIdFormat) then Refused(FormatMissing)
    else if Blank(policy.nameIdSource) then Refused(SourceAttributeMissing)
    else
      var value := FirstNonBlank(Values(attrs, policy.nameIdSource), 0);
      if value.None? then Refused(NameIdWithoutValue(policy.nameIdSource)) else Ok(value.value)
  }

  function Issued(policy: Policy, attrs: Attributes): Result<Issuance, Refusal> {
    var nameId := NameIdValue(policy, attrs);
    if nameId.Refused? then Refused(nameId.reason)
    else
      var claims := Claims(policy.rules, |policy.rules|, attrs, nameId.value);
      if claims.Refused? then Refused(claims.reason)
      else Ok(Issuance(policy.nameIdFormat, nameId.value, claims.value))
  }

  method IssueClaims(policy: Policy, attrs: Attributes) returns (result: Result<Issuance, Refusal>)
    ensures result == Issued(policy, attrs)
  {
    if Blank(policy.nameIdFormat) {
      return Refused(FormatMissing);
    }
    if Blank(policy.nameIdSource) {
      return Refused(SourceAttributeMissing);
    }
    var first := FirstNonBlank(Values(attrs, policy.nameIdSource), 0);
    if first.None? {
      return Refused(NameIdWithoutValue(policy.nameIdSource));
    }
    var claims := IssueRules(policy.rules, attrs, first.value);
    return if claims.Refused? then Refused(claims.reason)
           else Ok(Issuance(policy.nameIdFormat, first.value, claims.value));
  }

  // ----- issuing claims above the floor

  function IssuedWithFloor(policy: Policy, attrs: Attributes, defs: seq<Def>, lower: char -> char)
    : Result<Issuance, Refusal>
  {
    if !IsAttributeReleasable(policy.nameIdSource, defs) then Refused(NameIdNotReleasable(policy.nameIdSource))
    else
      var refusal := ValidateClaimReleaseRules(policy.rules, defs, lower);
      if refusal.Some? then Refused(refusal.value) else Issued(policy, attrs)
  }

  method IssueClaimsWithFloor(policy: Policy, attrs: Attributes, defs: seq<Def>, lower: char -> char)
    returns (result: Result<Issuance, Refusal>)
    ensures result == IssuedWithFloor(policy, attrs, defs, lower)
  {
    if !IsAttributeReleasable(policy.nameIdSource, defs) {
      return Refused(NameIdNotReleasable(policy.nameIdSource));
    }
    var refusal := ValidateClaimReleaseRules(policy.rules, defs, lower);
    if refusal.Some? {
      return Refused(refusal.value);
    }
    result := IssueClaims(policy, attrs);
  }

  // ----- the release decision

  lemma {:induction false} DefFromAppended(key: string, defs: seq<Def>, more: seq<Def>, i: nat)
    requires i <= |defs|
    ensures DefFrom(key, defs + more, i) ==
            if DefFrom(key, defs, i).Some? then DefFrom(key, defs, i) else DefFrom(key, more, 0)
    decreases |defs| - i
  {
    if i < |defs| {
      DefFromAppended(key, defs, more, i + 1);
    } else {
      DefFromDropped(key, defs, more, 0);
    }
  }

  lemma {:induction false} DefFromDropped(key: string, defs: seq<Def>, more: seq<Def>, i: nat)
    requires i <= |more|
    ensures DefFrom(key, defs + more, |defs| + i) == DefFrom(key, more, i)
    decreases |more| - i
  {
    if i < |more| {
      DefFromDropped(key, defs, more, i + 1);
    }
  }

  /** The definitions of a tenant come after the built-in ones and decide only keys that those do not define. */
  lemma BuiltinDefsDecideFirst(key: string, builtin: seq<Def>, tenant: seq<Def>)
    ensures IsAttributeReleasable(key, builtin + tenant) <==>
            if DefFrom(key, builtin, 0).Some? then IsAttributeReleasable(key, builtin)
            else IsAttributeReleasable(key, tenant)
  {
    DefFromAppended(key, builtin, tenant, 0);
  }

  lemma {:induction false} ValidatedFrom(rules: seq<Rule>, i: nat, defs: seq<Def>, lower: char -> char)
    requires i <= |rules|
    ensures ValidateFrom(rules, i, defs, lower).None? <==>
            forall k :: i <= k < |rules| ==> RuleRefusal(rules[k], defs, lower).None?
    decreases |rules| - i
  {
    if i < |rules| {
      ValidatedFrom(rules, i + 1, defs, lower);
    }
  }

  /** Case and surrounding white space do not hide a reserved claim type. */
  lemma ReservedHoweverWritten(before: string, core: string, after: string, lower: char -> char)
    requires Strings.Trimmed(core) && Strings.All(before, Strings.IsSpace) && Strings.All(after, Strings.IsSpace)
    ensures IsReservedClaimType(before + (core + after), lower) <==> Lower(core, lower) in RESERVED
  {
    Strings.TrimRemovesPadding(before, core, after);
  }

  // ----- non-interference

  /** A key whose values can matter: one that may be released and that a policy can name. */
  predicate Reachable(key: string, defs: seq<Def>) {
    IsAttributeReleasable(key, defs) && !Blank(key)
  }

  ghost predicate AgreeOnReachable(a: Attributes, b: Attributes, defs: seq<Def>) {
    forall key :: Reachable(key, defs) ==> Values(a, key) == Values(b, key)
  }

  lemma {:induction false} ClaimsDependOnSteps(rules: seq<Rule>, n: nat, a: Attributes, b: Attributes, nameId: string)
    requires n <= |rules| && forall k :: 0 <= k < n ==> Step(rules, k, a, nameId) == Step(rules, k, b, nameId)
    ensures Claims(rules, n, a, nameId) == Claims(rules, n, b, nameId)
  {
    if n > 0 {
      ClaimsDependOnSteps(rules, n - 1, a, b, nameId);
    }
  }

  lemma StepDependsOnReachable(
    rules: seq<Rule>, i: nat, a: Attributes, b: Attributes, nameId: string, defs: seq<Def>, lower: char -> char)
    requires i < |rules| && AgreeOnReachable(a, b, defs) && RuleRefusal(rules[i], defs, lower).None?
    ensures Step(rules, i, a, nameId) == Step(rules, i, b, nameId)
  {
    var rule := rules[i];
    if rule.source == UserAttribute && !Blank(rule.sourceKey) {
      assert Reachable(rule.sourceKey, defs);
    }
  }

  /** Users who agree on every attribute that may be released get the same claims or the same refusal. */
  lemma NonInterference(policy: Policy, a: Attributes, b: Attributes, defs: seq<Def>, lower: char -> char)
    requires AgreeOnReachable(a, b, defs)
    ensures IssuedWithFloor(policy, a, defs, lower) == IssuedWithFloor(policy, b, defs, lower)
  {
    if IsAttributeReleasable(policy.nameIdSource, defs)
       && ValidateClaimReleaseRules(policy.rules, defs, lower).None? {
      ValidatedFrom(policy.rules, 0, defs, lower);
      if !Blank(policy.nameIdSource) {
        assert Reachable(policy.nameIdSource, defs);
      }
      var nameId := NameIdValue(policy, a);
      if nameId.Ok? {
        forall k | 0 <= k < |policy.rules|
          ensures Step(policy.rules, k, a, nameId.value) == Step(policy.rules, k, b, nameId.value)
        {
          StepDependsOnReachable(policy.rules, k, a, b, nameId.value, defs, lower);
        }
        ClaimsDependOnSteps(policy.rules, |policy.rules|, a, b, nameId.value);
      }
    }
  }

  ghost predicate DifferOnlyAt(a: Attributes, b: Attributes, key: string) {
    forall k :: k != key ==> Values(a, k) == Values(b, k)
  }

  ghost predicate Reveals(
    policy: Policy, a: Attributes, b: Attributes, key: string, defs: seq<Def>, lower: char -> char)
  {
    DifferOnlyAt(a, b, key) && IssuedWithFloor(policy, a, defs, lower) != IssuedWithFloor(policy, b, defs, lower)
  }

  /** The floor is exact: an attribute can be told from outside, by some policy, exactly when it may be released. */
  lemma RevealedExactlyAboveFloor(key: string, defs: seq<Def>, lower: char -> char)
    ensures (exists policy, a, b :: Reveals(policy, a, b, key, defs, lower)) <==> Reachable(key, defs)
  {
    if Reachable(key, defs) {
      var policy := Policy("f", key, []);
      var a: Attributes := map[key := ["v"]];
      var b: Attributes := map[];
      assert FirstNonBlank(Values(a, key), 0) == Some("v");
      assert IssuedWithFloor(policy, a, defs, lower).Ok?;
      assert IssuedWithFloor(policy, b, defs, lower).Refused?;
      assert Reveals(policy, a, b, key, defs, lower);
    } else {
      forall policy, a, b | DifferOnlyAt(a, b, key)
        ensures IssuedWithFloor(policy, a, defs, lower) == IssuedWithFloor(policy, b, defs, lower)
      {
        NonInterference(policy, a, b, defs, lower);
      }
    }
  }

  // ----- what is issued

  /** One claim for each rule with values, in the order of the rules; the indices name the rules. */
  ghost predicate ClaimsFollowRules(
    rules: seq<Rule>, n: nat, attrs: Attributes, nameId: string, claims: seq<Claim>, indices: seq<nat>)
    requires n <= |rules|
  {
    && |indices| == |claims|
    && (forall i :: 0 <= i < |claims| ==>
          && indices[i] < n && claims[i].claimType == rules[indices[i]].claimType
          && Resolved(rules[indices[i]], attrs, nameId) == Ok(claims[i].values) && claims[i].values != [])
    && (forall i, j :: 0 <= i < j < |indices| ==> indices[i] < indices[j])
    && (forall k :: 0 <= k < n && k !in indices ==> !rules[k].required && Resolved(rules[k], attrs, nameId) == Ok([]))
  }

  lemma OneMoreRule(rules: seq<Rule>, n: nat, attrs: Attributes, nameId: string, claims: seq<Claim>, indices: seq<nat>)
    returns (more: seq<nat>)
    requires n < |rules| && Step(rules, n, attrs, nameId).Ok?
    requires ClaimsFollowRules(rules, n, attrs, nameId, claims, indices)
    ensures ClaimsFollowRules(rules, n + 1, attrs, nameId, claims + Step(rules, n, attrs, nameId).value, more)
  {
    var step := Step(rules, n, attrs, nameId).value;
    if step == [] {
      more := indices;
      assert claims + step == claims;
    } else {
      more := indices + [n];
      assert forall k :: k in more <==> k in indices || k == n;
    }
  }

  lemma {:induction false} ClaimsComeFromRules(rules: seq<Rule>, n: nat, attrs: Attributes, nameId: string)
    returns (indices: seq<nat>)
    requires n <= |rules| && Claims(rules, n, attrs, nameId).Ok?
    ensures ClaimsFollowRules(rules, n, attrs, nameId, Claims(rules, n, attrs, nameId).value, indices)
  {
    indices := [];
    if n > 0 {
      indices := ClaimsComeFromRules(rules, n - 1, attrs, nameId);
      indices := OneMoreRule(rules, n - 1, attrs, nameId, Claims(rules, n - 1, attrs, nameId).value, indices);
    }
  }

  /** The values that are kept, by their indices: all that are not dropped, in their order. */
  ghost predicate Keeps(values: seq<string>, n: nat, drop: string -> bool, kept: seq<string>, indices: seq<nat>)
    requires n <= |values|
  {
    && |indices| == |kept|
    && (forall i :: 0 <= i < |kept| ==> indices[i] < n && kept[i] == values[indices[i]])
    && (forall i, j :: 0 <= i < j < |indices| ==> indices[i] < indices[j])
    && (forall k :: 0 <= k < n ==> (k in indices <==> !drop(values[k])))
  }

  lemma OneMoreValue(values: seq<string>, n: nat, drop: string -> bool, kept: seq<string>, indices: seq<nat>)
    returns (more: seq<nat>)
    requires n < |values| && Keeps(values, n, drop, kept, indices)
    ensures Keeps(values, n + 1, drop, if drop(values[n]) then kept else kept + [values[n]], more)
  {
    if drop(values[n]) {
      more := indices;
      assert n !in indices;
    } else {
      more := indices + [n];
      assert forall k :: k in more <==> k in indices || k == n;
    }
  }

  lemma {:induction false} WithoutInOrder(values: seq<string>, n: nat, drop: string -> bool) returns (indices: seq<nat>)
    requires n <= |values|
    ensures Keeps(values, n, drop, Without(values, n, drop), indices)
  {
    if n == 0 {
      indices := [];
    } else {
      var before := WithoutInOrder(values, n - 1, drop);
      indices := OneMoreValue(values, n - 1, drop, Without(values, n - 1, drop), before);
    }
  }

  /** What nonEmpty keeps is all that is not blank, and nothing else, in order. */
  lemma NonBlankInOrder(values: seq<string>) returns (indices: seq<nat>)
    ensures Keeps(values, |values|, Blank, NonBlank(values, |values|), indices)
  {
    indices := WithoutInOrder(values, |values|, Blank);
  }

  lemma {:induction false} WithoutHolds(values: seq<string>, n: nat, drop: string -> bool, v: string)
    requires n <= |values|
    ensures v in Without(values, n, drop) <==> !drop(v) && v in values[..n]
  {
    if n > 0 {
      WithoutHolds(values, n - 1, drop, v);
      assert values[..n] == values[..n - 1] + [values[n - 1]];
    }
  }

  lemma NonBlankHolds(values: seq<string>, n: nat, v: string)
    requires n <= |values|
    ensures v in NonBlank(values, n) <==> !Blank(v) && v in values[..n]
  {
    WithoutHolds(values, n, Blank, v);
  }

  lemma {:induction false} FirstNonBlankHolds(values: seq<string>, i: nat)
    requires i <= |values|
    ensures var first := FirstNonBlank(values, i);
            if first.Some? then first.value in values && !Blank(first.value)
            else forall k :: i <= k < |values| ==> Blank(values[k])
    decreases |values| - i
  {
    if i < |values| {
      FirstNonBlankHolds(values, i + 1);
    }
  }

  /** A value that may leave: fixed by the rule, or held by an attribute that may be released. */
  ghost predicate MayLeave(value: string, policy: Policy, rule: Rule, attrs: Attributes, defs: seq<Def>) {
    && !Blank(value)
    && match rule.source
       case UserAttribute => Reachable(rule.sourceKey, defs) && value in Values(attrs, rule.sourceKey)
       case Fixed => value == rule.fixedValue
       case NameId => Reachable(policy.nameIdSource, defs) && value in Values(attrs, policy.nameIdSource)
       case Unknown(_) => false
  }

  lemma ResolvedMayLeave(
    policy: Policy, rule: Rule, attrs: Attributes, defs: seq<Def>, lower: char -> char, nameId: string, value: string)
    requires IsAttributeReleasable(policy.nameIdSource, defs) && NameIdValue(policy, attrs) == Ok(nameId)
    requires RuleRefusal(rule, defs, lower).None?
    requires Resolved(rule, attrs, nameId).Ok? && value in Resolved(rule, attrs, nameId).value
    ensures MayLeave(value, policy, rule, attrs, defs)
  {
    var values := Values(attrs, rule.sourceKey);
    NonBlankHolds(values, |values|, value);
    assert values[..|values|] == values;
    FirstNonBlankHolds(Values(attrs, policy.nameIdSource), 0);
  }

  /**
   * Whatever is issued above the floor follows the rules one by one, has no reserved claim type, is
   * never empty, and holds only values that may leave.
   */
  lemma IssuedAboveFloor(policy: Policy, attrs: Attributes, defs: seq<Def>, lower: char -> char)
    returns (indices: seq<nat>)
    requires IssuedWithFloor(policy, attrs, defs, lower).Ok?
    ensures var issued := IssuedWithFloor(policy, attrs, defs, lower).value;
            && ClaimsFollowRules(policy.rules, |policy.rules|, attrs, issued.nameIdValue, issued.claims, indices)
            && (forall i :: 0 <= i < |issued.claims| ==> !IsReservedClaimType(issued.claims[i].claimType, lower))
            && (forall i, v :: 0 <= i < |issued.claims| && v in issued.claims[i].values ==>
                  MayLeave(v, policy, policy.rules[indices[i]], attrs, defs))
  {
    var issued := IssuedWithFloor(policy, attrs, defs, lower).value;
    ValidatedFrom(policy.rules, 0, defs, lower);
    indices := ClaimsComeFromRules(policy.rules, |policy.rules|, attrs, issued.nameIdValue);
    forall i, v | 0 <= i < |issued.claims| && v in issued.claims[i].values
      ensures MayLeave(v, policy, policy.rules[indices[i]], attrs, defs)
    {
      ResolvedMayLeave(policy, policy.rules[indices[i]], attrs, defs, lower, issued.nameIdValue, v);
    }
  }

  /** Claims are issued exactly when the NameID has a value and every rule can be followed. */
  lemma IssuedExactlyWhenRulesResolve(policy: Policy, attrs: Attributes, defs: seq<Def>, lower: char -> char)
    ensures IssuedWithFloor(policy, attrs, defs, lower).Ok? <==>
            && !Blank(policy.nameIdFormat) && Reachable(policy.nameIdSource, defs)
            && (exists v :: v in Values(attrs, policy.nameIdSource) && !Blank(v))
            && forall k :: 0 <= k < |policy.rules| ==> Followable(policy.rules[k], attrs, defs, lower)
  {
    ValidatedFrom(policy.rules, 0, defs, lower);
    FirstNonBlankHolds(Values(attrs, policy.nameIdSource), 0);
    var nameId := NameIdValue(policy, attrs);
    if nameId.Ok? {
      ClaimsExactlyWhenSteps(policy.rules, |policy.rules|, attrs, nameId.value);
      forall k | 0 <= k < |policy.rules| && RuleRefusal(policy.rules[k], defs, lower).None?
        ensures Followable(policy.rules[k], attrs, defs, lower) <==> Step(policy.rules, k, attrs, nameId.value).Ok?
      {
        StepFollows(policy.rules, k, attrs, nameId.value, defs, lower);
      }
    }
  }

  /** A rule whose claim may be issued, from a source that has a value if the claim is required. */
  ghost predicate Followable(rule: Rule, attrs: Attributes, defs: seq<Def>, lower: char -> char) {
    && !Blank(rule.claimType) && !IsReservedClaimType(rule.claimType, lower) && !rule.source.Unknown?
    && (rule.source == UserAttribute ==>
          && Reachable(rule.sourceKey, defs)
          && (rule.required ==> exists v :: v in Values(attrs, rule.sourceKey) && !Blank(v)))
    && (rule.source == Fixed && rule.required ==> !Blank(rule.fixedValue))
  }

  lemma {:induction false} ClaimsExactlyWhenSteps(rules: seq<Rule>, n: nat, attrs: Attributes, nameId: string)
    requires n <= |rules|
    ensures Claims(rules, n, attrs, nameId).Ok? <==> forall k :: 0 <= k < n ==> Step(rules, k, attrs, nameId).Ok?
  {
    if n > 0 {
      ClaimsExactlyWhenSteps(rules, n - 1, attrs, nameId);
    }
  }

  lemma StepFollows(rules: seq<Rule>, k: nat, attrs: Attributes, nameId: string, defs: seq<Def>, lower: char -> char)
    requires k < |rules| && RuleRefusal(rules[k], defs, lower).None?
    ensures Step(rules, k, attrs, nameId).Ok? <==> Followable(rules[k], attrs, defs, lower)
  {
    var rule := rules[k];
    var values := Values(attrs, rule.sourceKey);
    assert values[..|values|] == values;
    var kept := NonBlank(values, |values|);
    if v :| v in values && !Blank(v) {
      NonBlankHolds(values, |values|, v);
    }
    if kept != [] {
      NonBlankHolds(values, |values|, kept[0]);
    }
  }
}
