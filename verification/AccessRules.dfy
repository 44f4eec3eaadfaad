/** The access rules of a resource server: their validation and the lookups that rely on it. */
module AccessRules {
  import opened GoValues
  import opened Sorting
  import Strings
  import AccessLimit

  datatype Tool = Tool(id: string, name: string, displayName: string, resourceIdArgument: string)

  datatype Condition = Condition(denyWhen: string, requireApprovalWhen: string, approvalDetailType: string)

  datatype Rule = Rule(
    tool: Option<Tool>,
    resourceType: string,
    relation: string,
    scopes: seq<string>,
    authorizationDetailType: string,
    requiresApprovedOperation: bool,
    condition: Option<Condition>,
    limits: seq<AccessLimit.Limit>,
    tokenExchangeResources: seq<string>)

  /** The libraries that validation asks: the expression compiler and the URL parser. */
  datatype Libraries = Libraries(compiles: string -> bool, isHttpsUrl: string -> bool)

  const MAX_RULES := 100
  const MAX_NAME := 64
  const MAX_TOOL_NAME := 128
  const MAX_DISPLAY_NAME := 256
  const MAX_ARGUMENT := 128
  const MAX_EXCHANGE := 8
  const MCP_OPERATION := "idmagic_mcp_operation"
  const MCP_INVOKE := "invoke"

  // ----- a rule on its own

  /** ^[a-z][a-z0-9_]*$ within 64 characters */
  ghost predicate ValidName(s: string) {
    && 0 < |s| <= 64 && 'a' <= s[0] <= 'z'
    && forall i :: 0 <= i < |s| ==> 'a' <= s[i] <= 'z' || '0' <= s[i] <= '9' || s[i] == '_'
  }

  predicate IsNameChar(c: char) {
    'a' <= c <= 'z' || '0' <= c <= '9' || c == '_'
  }

  method CheckName(s: string) returns (ok: bool)
    ensures ok <==> ValidName(s)
  {
    if s == "" || |s| > MAX_NAME || !('a' <= s[0] <= 'z') {
      return false;
    }
    for i := 1 to |s|
      invariant forall k :: 0 <= k < i ==> IsNameChar(s[k])
    {
      if !IsNameChar(s[i]) {
        return false;
      }
    }
    return true;
  }

  ghost predicate ValidTool(t: Tool, resourceType: string, relation: string) {
    && t.id != "" && 0 < |t.name| <= 128
    && (forall i :: 0 <= i < |t.name| ==> t.name[i] != ':' && t.name[i] != '#')
    && !Strings.All(t.displayName, Strings.IsSpace) && |t.displayName| <= 256
    && |t.resourceIdArgument| <= 128
    && (resourceType == "idmagic_mcp_operation" ==> relation == "invoke")
    && (resourceType != "idmagic_mcp_operation" ==> t.resourceIdArgument != "")
  }

  method CheckTool(t: Tool, resourceType: string, relation: string) returns (ok: bool)
    ensures ok <==> ValidTool(t, resourceType, relation)
  {
    Strings.TrimLeavesNothingOfSpace(t.displayName);
    if t.id == "" || t.name == "" || |t.name| > MAX_TOOL_NAME || ':' in t.name || '#' in t.name {
      return false;
    }
    if Strings.TrimSpace(t.displayName) == "" || |t.displayName| > MAX_DISPLAY_NAME {
      return false;
    }
    if |t.resourceIdArgument| > MAX_ARGUMENT {
      return false;
    }
    if resourceType == MCP_OPERATION {
      return relation == MCP_INVOKE;
    }
    return t.resourceIdArgument != "";
  }

  /** What a condition denies or has approved compiles, and what it has approved has a type of its own. */
  ghost predicate ValidCondition(c: Condition, lib: Libraries) {
    && (c.denyWhen == "" ==> c.requireApprovalWhen != "")
    && (c.requireApprovalWhen == "" <==> c.approvalDetailType == "")
    && (c.denyWhen == "" || lib.compiles(c.denyWhen))
    && (c.requireApprovalWhen == "" || lib.compiles(c.requireApprovalWhen))
  }

  method CheckCondition(c: Condition, lib: Libraries) returns (ok: bool)
    ensures ok <==> ValidCondition(c, lib)
  {
    if c.denyWhen == "" && c.requireApprovalWhen == "" {
      return false;
    }
    if (c.requireApprovalWhen == "") != (c.approvalDetailType == "") {
      return false;
    }
    if c.denyWhen != "" && !lib.compiles(c.denyWhen) {
      return false;
    }
    return c.requireApprovalWhen == "" || lib.compiles(c.requireApprovalWhen);
  }

  /** Exchange is for at most eight https URLs, and for rules that never ask for approval. */
  ghost predicate ValidExchange(r: Rule, lib: Libraries) {
    r.tokenExchangeResources != [] ==>
      && |r.tokenExchangeResources| <= 8
      && !r.requiresApprovedOperation && (r.condition.Some? ==> r.condition.value.requireApprovalWhen == "")
      && forall i :: 0 <= i < |r.tokenExchangeResources| ==> lib.isHttpsUrl(r.tokenExchangeResources[i])
  }

  method CheckExchange(r: Rule, lib: Libraries) returns (ok: bool)
    ensures ok <==> ValidExchange(r, lib)
  {
    if r.tokenExchangeResources == [] {
      return true;
    }
    if |r.tokenExchangeResources| > MAX_EXCHANGE || r.requiresApprovedOperation {
      return false;
    }
    if r.condition.Some? && r.condition.value.requireApprovalWhen != "" {
      return false;
    }
    for i := 0 to |r.tokenExchangeResources|
      invariant forall k :: 0 <= k < i ==> lib.isHttpsUrl(r.tokenExchangeResources[k])
    {
      if !lib.isHttpsUrl(r.tokenExchangeResources[i]) {
        return false;
      }
    }
    return true;
  }

  ghost predicate ValidScopes(r: Rule, scopes: seq<string>) {
    r.scopes != [] && forall i :: 0 <= i < |r.scopes| ==> r.scopes[i] in scopes
  }

  /** The target and the tool of a rule. */
  ghost predicate ValidShape(r: Rule) {
    && ValidName(r.resourceType) && ValidName(r.relation)
    && (r.tool.Some? ==> ValidTool(r.tool.value, r.resourceType, r.relation))
    && (r.tool.None? ==> r.resourceType != "idmagic_mcp_operation")
  }

  ghost predicate ValidConstraints(r: Rule, scopes: seq<string>, lib: Libraries) {
    && (r.requiresApprovedOperation ==> r.authorizationDetailType != "")
    && (r.condition.Some? ==> ValidCondition(r.condition.value, lib))
    && (r.requiresApprovedOperation && r.condition.Some? ==> r.condition.value.requireApprovalWhen == "")
    && AccessLimit.ValidLimits(r.limits)
    && ValidExchange(r, lib)
    && ValidScopes(r, scopes)
  }

  ghost predicate ValidAlone(r: Rule, scopes: seq<string>, lib: Libraries) {
    ValidShape(r) && ValidConstraints(r, scopes, lib)
  }

  // ----- a list of rules

  ghost predicate SameTarget(a: Rule, b: Rule) {
    a.resourceType == b.resourceType && a.relation == b.relation
  }

  /** Two rules that may not stand in one list, in either order. */
  ghost predicate Clash(a: Rule, b: Rule) {
    if a.tool.Some? && b.tool.Some? then a.tool.value.name == b.tool.value.name else SameTarget(a, b)
  }

  /** The declared meaning of an acceptable list; the order of the rules plays no part in it. */
  ghost predicate ValidRules(rules: seq<Rule>, scopes: seq<string>, lib: Libraries) {
    |rules| <= 100 && ValidUpTo(rules, |rules|, scopes, lib)
  }

  ghost predicate ValidUpTo(rules: seq<Rule>, n: nat, scopes: seq<string>, lib: Libraries)
    requires n <= |rules|
  {
    && (forall k :: 0 <= k < n ==> ValidAlone(rules[k], scopes, lib))
    && (forall j, k :: 0 <= j < k < n ==> !Clash(rules[j], rules[k]))
  }

  // ----- validateAccessRules

  type Key = (string, string, string)
  type Target = (string, string)

  function LegacyKey(r: Rule): Key {
    ("legacy", r.resourceType, r.relation)
  }

  function KeyOf(r: Rule): Key {
    if r.tool.Some? then ("tool", r.tool.value.name, "") else LegacyKey(r)
  }

  function TargetOf(r: Rule): Target {
    (r.resourceType, r.relation)
  }

  /** What the two maps hold after n rules. */
  ghost predicate Remembers(rules: seq<Rule>, n: nat, seen: set<Key>, toolTargets: set<Target>)
    requires n <= |rules|
  {
    && (forall key :: key in seen <==> exists k :: 0 <= k < n && KeyOf(rules[k]) == key)
    && (forall t :: t in toolTargets <==> exists k :: 0 <= k < n && rules[k].tool.Some? && TargetOf(rules[k]) == t)
  }

  /** The lookups in the two maps find exactly the clashes with earlier rules. */
  ghost predicate Remembered(r: Rule, seen: set<Key>, toolTargets: set<Target>) {
    KeyOf(r) in seen || (if r.tool.Some? then LegacyKey(r) in seen else TargetOf(r) in toolTargets)
  }

  lemma RememberedMeansClash(rules: seq<Rule>, n: nat, seen: set<Key>, toolTargets: set<Target>)
    requires n < |rules| && Remembers(rules, n, seen, toolTargets)
    ensures Remembered(rules[n], seen, toolTargets) <==> exists k :: 0 <= k < n && Clash(rules[k], rules[n])
  {
    var r := rules[n];
    forall k | 0 <= k < n && Clash(rules[k], r) ensures Remembered(r, seen, toolTargets) {
      assert KeyOf(rules[k]) in seen;
      assert rules[k].tool.Some? ==> TargetOf(rules[k]) in toolTargets;
    }
    if KeyOf(r) in seen {
      var k :| 0 <= k < n && KeyOf(rules[k]) == KeyOf(r);
      assert Clash(rules[k], r);
    } else if r.tool.Some? && LegacyKey(r) in seen {
      var k :| 0 <= k < n && KeyOf(rules[k]) == LegacyKey(r);
      assert Clash(rules[k], r);
    } else if r.tool.None? && TargetOf(r) in toolTargets {
      var k :| 0 <= k < n && rules[k].tool.Some? && TargetOf(rules[k]) == TargetOf(r);
      assert Clash(rules[k], r);
    }
  }

  lemma RemembersNext(rules: seq<Rule>, n: nat, seen: set<Key>, toolTargets: set<Target>)
    requires n < |rules| && Remembers(rules, n, seen, toolTargets)
    ensures Remembers(rules, n + 1, seen + {KeyOf(rules[n])},
                      if rules[n].tool.Some? then toolTargets + {TargetOf(rules[n])} else toolTargets)
  {
  }

  /** The checks of a rule's names and tool, and for clashes with the rules before. */
  method CheckTarget(r: Rule, seen: set<Key>, toolTargets: set<Target>) returns (ok: bool)
    ensures ok <==> ValidShape(r) && !Remembered(r, seen, toolTargets)
  {
    var typeOk := CheckName(r.resourceType);
    var relationOk := CheckName(r.relation);
    if !typeOk || !relationOk {
      return false;
    }
    if r.tool.Some? {
      var toolOk := CheckTool(r.tool.value, r.resourceType, r.relation);
      if !toolOk || LegacyKey(r) in seen {
        return false;
      }
    } else if r.resourceType == MCP_OPERATION || TargetOf(r) in toolTargets {
      return false;
    }
    return KeyOf(r) !in seen;
  }

  /** The checks of what a rule demands. */
  method CheckConstraints(r: Rule, scopes: seq<string>, lib: Libraries) returns (ok: bool)
    ensures ok <==> ValidConstraints(r, scopes, lib)
  {
    if r.requiresApprovedOperation && r.authorizationDetailType == "" {
      return false;
    }
    if r.condition.Some? {
      var conditionOk := CheckCondition(r.condition.value, lib);
      if !conditionOk {
        return false;
      }
      if r.requiresApprovedOperation && r.condition.value.requireApprovalWhen != "" {
        return false;
      }
    }
    var limitsOk := AccessLimit.ValidateLimits(r.limits);
    var exchangeOk := CheckExchange(r, lib);
    if !limitsOk || !exchangeOk || r.scopes == [] {
      return false;
    }
    for i := 0 to |r.scopes|
      invariant forall k :: 0 <= k < i ==> r.scopes[k] in scopes
    {
      if r.scopes[i] !in scopes {
        return false;
      }
    }
    return true;
  }

  lemma NextRule(
    rules: seq<Rule>, n: nat, scopes: seq<string>, lib: Libraries, seen: set<Key>, toolTargets: set<Target>)
    requires n < |rules| && ValidUpTo(rules, n, scopes, lib) && Remembers(rules, n, seen, toolTargets)
    ensures ValidUpTo(rules, n + 1, scopes, lib) <==>
            ValidAlone(rules[n], scopes, lib) && !Remembered(rules[n], seen, toolTargets)
  {
    RememberedMeansClash(rules, n, seen, toolTargets);
  }

  lemma InvalidStaysInvalid(rules: seq<Rule>, n: nat, scopes: seq<string>, lib: Libraries)
    requires n <= |rules| && !ValidUpTo(rules, n, scopes, lib)
    ensures !ValidRules(rules, scopes, lib)
  {
  }

  /** Accepts exactly the lists with the declared meaning. */
  method ValidateAccessRules(rules: seq<Rule>, scopes: seq<string>, lib: Libraries) returns (ok: bool)
    ensures ok <==> ValidRules(rules, scopes, lib)
  {
    if |rules| > MAX_RULES {
      return false;
    }
    var seen: set<Key> := {};
    var toolTargets: set<Target> := {};
    for i := 0 to |rules|
      invariant ValidUpTo(rules, i, scopes, lib) && Remembers(rules, i, seen, toolTargets)
    {
      NextRule(rules, i, scopes, lib, seen, toolTargets);
      RemembersNext(rules, i, seen, toolTargets);
      var targetOk := CheckTarget(rules[i], seen, toolTargets);
      if !targetOk {
        InvalidStaysInvalid(rules, i + 1, scopes, lib);
        return false;
      }
      if rules[i].tool.Some? {
        toolTargets := toolTargets + {TargetOf(rules[i])};
      }
      seen := seen + {KeyOf(rules[i])};
      var constraintsOk := CheckConstraints(rules[i], scopes, lib);
      if !constraintsOk {
        InvalidStaysInvalid(rules, i + 1, scopes, lib);
        return false;
      }
    }
    return true;
  }

  // ----- order plays no part

  /** The absence of clashes, without indices: a rule clashes with itself. */
  lemma NoClashMeansDistinct(rules: seq<Rule>)
    ensures (forall j, k :: 0 <= j < k < |rules| ==> !Clash(rules[j], rules[k])) <==>
            Distinct(rules) && forall a, b :: a in multiset(rules) && b in multiset(rules) && Clash(a, b) ==> a == b
  {
    if forall j, k :: 0 <= j < k < |rules| ==> !Clash(rules[j], rules[k]) {
      forall a, b | a in multiset(rules) && b in multiset(rules) && Clash(a, b) ensures a == b {
        var j :| 0 <= j < |rules| && rules[j] == a;
        var k :| 0 <= k < |rules| && rules[k] == b;
        assert !(j < k) && !(k < j);
      }
    } else if Distinct(rules) {
      var j, k :| 0 <= j < k < |rules| && Clash(rules[j], rules[k]);
      assert rules[j] in multiset(rules) && rules[k] in multiset(rules) && rules[j] != rules[k];
    }
  }

  lemma AloneIgnoresOrder(rules: seq<Rule>, scopes: seq<string>, lib: Libraries)
    ensures (forall k :: 0 <= k < |rules| ==> ValidAlone(rules[k], scopes, lib)) <==>
            forall r :: r in multiset(rules) ==> ValidAlone(r, scopes, lib)
  {
    forall k | 0 <= k < |rules| ensures rules[k] in multiset(rules) {
    }
  }

  /** A permutation of the rules is accepted exactly when the rules are. */
  lemma AcceptanceIgnoresOrder(rules: seq<Rule>, permuted: seq<Rule>, scopes: seq<string>, lib: Libraries)
    requires multiset(rules) == multiset(permuted)
    ensures ValidRules(rules, scopes, lib) <==> ValidRules(permuted, scopes, lib)
  {
    assert |rules| == |multiset(rules)| == |permuted|;
    NoClashMeansDistinct(rules);
    NoClashMeansDistinct(permuted);
    AloneIgnoresOrder(rules, scopes, lib);
    AloneIgnoresOrder(permuted, scopes, lib);
    if Distinct(rules) {
      DistinctPermutation(rules, permuted);
    } else if Distinct(permuted) {
      DistinctPermutation(permuted, rules);
    }
  }

  // ----- the lookups

  /** The first rule from index i on without a tool and with the given target. */
  function RuleFrom(rules: seq<Rule>, i: nat, resourceType: string, relation: string): Option<Rule>
    requires i <= |rules|
    decreases |rules| - i
  {
    if i == |rules| then None
    else if rules[i].tool.None? && TargetOf(rules[i]) == (resourceType, relation) then Some(rules[i])
    else RuleFrom(rules, i + 1, resourceType, relation)
  }

  function RuleFor(rules: seq<Rule>, resourceType: string, relation: string): Option<Rule> {
    RuleFrom(rules, 0, resourceType, relation)
  }

  function ToolRuleFrom(rules: seq<Rule>, i: nat, name: string): Option<Rule>
    requires i <= |rules|
    decreases |rules| - i
  {
    if i == |rules| then None
    else if rules[i].tool.Some? && rules[i].tool.value.name == name then Some(rules[i])
    else ToolRuleFrom(rules, i + 1, name)
  }

  function ToolRuleFor(rules: seq<Rule>, name: string): Option<Rule> {
    ToolRuleFrom(rules, 0, name)
  }

  lemma {:induction false} RuleFromFinds(rules: seq<Rule>, i: nat, resourceType: string, relation: string)
    requires i <= |rules|
    ensures var found := RuleFrom(rules, i, resourceType, relation);
            if found.Some? then
              && found.value in multiset(rules) && found.value.tool.None?
              && found.value.resourceType == resourceType && found.value.relation == relation
            else
              forall k :: i <= k < |rules| && rules[k].tool.None? ==>
                rules[k].resourceType != resourceType || rules[k].relation != relation
    decreases |rules| - i
  {
    if i < |rules| {
      RuleFromFinds(rules, i + 1, resourceType, relation);
    }
  }

  lemma {:induction false} ToolRuleFromFinds(rules: seq<Rule>, i: nat, name: string)
    requires i <= |rules|
    ensures var found := ToolRuleFrom(rules, i, name);
            if found.Some? then
              found.value in multiset(rules) && found.value.tool.Some? && found.value.tool.value.name == name
            else
              forall k :: i <= k < |rules| && rules[k].tool.Some? ==> rules[k].tool.value.name != name
    decreases |rules| - i
  {
    if i < |rules| {
      ToolRuleFromFinds(rules, i + 1, name);
    }
  }

  /** In an accepted list the rule found is the only one that applies, and no tool shares its target. */
  lemma RuleForIsTheOnlyOne(
    rules: seq<Rule>, scopes: seq<string>, lib: Libraries, r: Rule, resourceType: string, relation: string)
    requires ValidRules(rules, scopes, lib)
    ensures RuleFor(rules, resourceType, relation) == Some(r) <==>
            r in multiset(rules) && r.tool.None? && r.resourceType == resourceType && r.relation == relation
    ensures RuleFor(rules, resourceType, relation) == Some(r) ==>
              forall other :: other in multiset(rules) && SameTarget(other, r) ==> other == r
  {
    RuleFromFinds(rules, 0, resourceType, relation);
    NoClashMeansDistinct(rules);
    var found := RuleFor(rules, resourceType, relation);
    if r in multiset(rules) && r.tool.None? && r.resourceType == resourceType && r.relation == relation {
      var k :| 0 <= k < |rules| && rules[k] == r;
      assert found.Some?;
      assert Clash(found.value, r);
    }
    if found == Some(r) {
      forall other | other in multiset(rules) && SameTarget(other, r) ensures other == r {
        assert Clash(other, r);
      }
    }
  }

  lemma ToolRuleForIsTheOnlyOne(rules: seq<Rule>, scopes: seq<string>, lib: Libraries, r: Rule, name: string)
    requires ValidRules(rules, scopes, lib)
    ensures ToolRuleFor(rules, name) == Some(r) <==>
            r in multiset(rules) && r.tool.Some? && r.tool.value.name == name
  {
    ToolRuleFromFinds(rules, 0, name);
    NoClashMeansDistinct(rules);
    var found := ToolRuleFor(rules, name);
    if r in multiset(rules) && r.tool.Some? && r.tool.value.name == name {
      var k :| 0 <= k < |rules| && rules[k] == r;
      assert found.Some?;
      assert Clash(found.value, r);
    }
  }

  /** So the order of an accepted list decides nothing. */
  lemma LookupsIgnoreOrder(rules: seq<Rule>, permuted: seq<Rule>, scopes: seq<string>, lib: Libraries)
    requires multiset(rules) == multiset(permuted) && ValidRules(rules, scopes, lib)
    ensures forall t, rel :: RuleFor(rules, t, rel) == RuleFor(permuted, t, rel)
    ensures forall name :: ToolRuleFor(rules, name) == ToolRuleFor(permuted, name)
  {
    AcceptanceIgnoresOrder(rules, permuted, scopes, lib);
    forall t, rel ensures RuleFor(rules, t, rel) == RuleFor(permuted, t, rel) {
      if r :| RuleFor(rules, t, rel) == Some(r) || RuleFor(permuted, t, rel) == Some(r) {
        RuleForIsTheOnlyOne(rules, scopes, lib, r, t, rel);
        RuleForIsTheOnlyOne(permuted, scopes, lib, r, t, rel);
      }
    }
    forall name ensures ToolRuleFor(rules, name) == ToolRuleFor(permuted, name) {
      if r :| ToolRuleFor(rules, name) == Some(r) || ToolRuleFor(permuted, name) == Some(r) {
        ToolRuleForIsTheOnlyOne(rules, scopes, lib, r, name);
        ToolRuleForIsTheOnlyOne(permuted, scopes, lib, r, name);
      }
    }
  }
}
