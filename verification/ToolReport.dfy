/** Reported tools: what a report may contain, its fingerprint, and its changes from the one before. */
module ToolReport {
  import opened GoValues
  import opened Sorting
  import Strings

  datatype Tool = Tool(name: string, title: string, description: string, arguments: seq<string>)

  datatype ToolList = ToolList(tools: seq<Tool>, complete: bool)

  datatype Field = Title | Description | Arguments

  datatype ModifiedTool = ModifiedTool(name: string, fields: seq<Field>, previous: Tool)

  datatype Changes = Changes(added: seq<string>, removed: seq<string>, modified: seq<ModifiedTool>)

  const MAX_TOOLS := 100
  const MAX_NAME := 128
  const MAX_TITLE := 256
  const MAX_DESCRIPTION := 2048
  const MAX_ARGUMENTS := 32
  const MAX_ARGUMENT_NAME := 128

  // ----- what a report may contain

  ghost predicate ValidTool(t: Tool) {
    && 0 < |t.name| <= 128 && (forall i :: 0 <= i < |t.name| ==> t.name[i] != ':' && t.name[i] != '#')
    && |t.title| <= 256 && |t.description| <= 2048 && |t.arguments| <= 32
    && forall i :: 0 <= i < |t.arguments| ==> |t.arguments[i]| <= 128
  }

  ghost predicate UniqueNames(tools: seq<Tool>) {
    forall i, j :: 0 <= i < j < |tools| ==> tools[i].name != tools[j].name
  }

  method CheckTool(t: Tool) returns (ok: bool)
    ensures ok <==> ValidTool(t)
  {
    if t.name == "" || |t.name| > MAX_NAME || ':' in t.name || '#' in t.name {
      return false;
    }
    if |t.title| > MAX_TITLE || |t.description| > MAX_DESCRIPTION || |t.arguments| > MAX_ARGUMENTS {
      return false;
    }
    for i := 0 to |t.arguments|
      invariant forall k :: 0 <= k < i ==> |t.arguments[k]| <= MAX_ARGUMENT_NAME
    {
      if |t.arguments[i]| > MAX_ARGUMENT_NAME {
        return false;
      }
    }
    return true;
  }

  /** ParseReportedTools after the JSON array has been read: all tools or none. */
  method ParseReportedTools(parsed: Option<seq<Tool>>) returns (tools: Option<seq<Tool>>)
    ensures tools.Some? <==>
            && parsed.Some? && |parsed.value| <= 100 && UniqueNames(parsed.value)
            && forall i :: 0 <= i < |parsed.value| ==> ValidTool(parsed.value[i])
    ensures tools.Some? ==> tools == parsed
  {
    if parsed.None? || |parsed.value| > MAX_TOOLS {
      return None;
    }
    var seen: set<string> := {};
    var list := parsed.value;
    for i := 0 to |list|
      invariant forall k :: 0 <= k < i ==> ValidTool(list[k])
      invariant forall j, k :: 0 <= j < k < i ==> list[j].name != list[k].name
      invariant forall name :: name in seen <==> exists k :: 0 <= k < i && list[k].name == name
    {
      var ok := CheckTool(list[i]);
      if !ok || list[i].name in seen {
        return None;
      }
      seen := seen + {list[i].name};
    }
    return parsed;
  }

  // ----- the canonical form that the fingerprint hashes

  function SortedArguments(arguments: seq<string>): seq<string> {
    Sort(arguments, Strings.Leq)
  }

  /** A tool with its arguments in order. */
  function Canon(t: Tool): Tool {
    t.(arguments := SortedArguments(t.arguments))
  }

  predicate ByName(a: Tool, b: Tool) {
    Strings.Leq(a.name, b.name)
  }

  function CanonAll(tools: seq<Tool>): (c: seq<Tool>)
    ensures |c| == |tools|
    ensures forall i :: 0 <= i < |c| ==> c[i] == Canon(tools[i])
  {
    seq(|tools|, i requires 0 <= i < |tools| => Canon(tools[i]))
  }

  /** What Fingerprint encodes and hashes; encoding and hash keep different forms different. */
  function Canonical(tools: seq<Tool>): seq<Tool> {
    Sort(CanonAll(tools), ByName)
  }

  method Fingerprint(reported: seq<Tool>) returns (canonical: seq<Tool>)
    ensures canonical == Canonical(reported)
  {
    var tools: seq<Tool> := [];
    for i := 0 to |reported|
      invariant |tools| == i
      invariant forall k :: 0 <= k < i ==> tools[k] == Canon(reported[k])
    {
      tools := tools + [reported[i].(arguments := Sort(reported[i].arguments, Strings.Leq))];
    }
    assert tools == CanonAll(reported);
    canonical := Sort(tools, ByName);
  }

  lemma ByNameIsTotal()
    ensures Total(ByName)
  {
    Strings.LeqIsTotal();
  }

  lemma CanonNames(tools: seq<Tool>)
    requires UniqueNames(tools)
    ensures UniqueNames(CanonAll(tools)) && Distinct(CanonAll(tools))
    ensures Antisymmetric(ByName, multiset(CanonAll(tools)))
  {
    var c := CanonAll(tools);
    forall a, b | a in multiset(c) && b in multiset(c) && ByName(a, b) && ByName(b, a) ensures a == b {
      Strings.LeqTotal(a.name, b.name);
      var i :| 0 <= i < |c| && c[i] == a;
      var j :| 0 <= j < |c| && c[j] == b;
      assert tools[i].name == tools[j].name;
    }
  }

  /** Canonical forms are equal exactly when the tools are, order of tools and arguments apart. */
  lemma CanonicalMeansSameTools(a: seq<Tool>, b: seq<Tool>)
    requires UniqueNames(a) && UniqueNames(b)
    ensures Canonical(a) == Canonical(b) <==> multiset(CanonAll(a)) == multiset(CanonAll(b))
  {
    ByNameIsTotal();
    SortSorts(CanonAll(a), ByName);
    SortSorts(CanonAll(b), ByName);
    if multiset(CanonAll(a)) == multiset(CanonAll(b)) {
      CanonNames(a);
      SortIgnoresOrder(CanonAll(a), CanonAll(b), ByName);
    }
  }

  /** Two tools have one canonical form exactly when they differ in the order of arguments at most. */
  lemma CanonMeansSameDefinition(a: Tool, b: Tool)
    ensures Canon(a) == Canon(b) <==>
            a.name == b.name && a.title == b.title && a.description == b.description
            && multiset(a.arguments) == multiset(b.arguments)
  {
    Strings.SortedStringsUnique(a.arguments, b.arguments);
  }

  // ----- the changes from the list before

  function FieldList(title: bool, description: bool, arguments: bool): seq<Field> {
    (if title then [Title] else []) + (if description then [Description] else [])
    + (if arguments then [Arguments] else [])
  }

  function DifferentFields(before: Tool, after: Tool): seq<Field> {
    FieldList(before.title != after.title, before.description != after.description,
              SortedArguments(before.arguments) != SortedArguments(after.arguments))
  }

  method FindDifferentFields(before: Tool, after: Tool) returns (fields: seq<Field>)
    ensures fields == DifferentFields(before, after)
  {
    fields := [];
    if before.title != after.title {
      fields := fields + [Title];
    }
    if before.description != after.description {
      fields := fields + [Description];
    }
    if Sort(before.arguments, Strings.Leq) != Sort(after.arguments, Strings.Leq) {
      fields := fields + [Arguments];
    }
  }

  /** The tools by name; of tools with one name the last counts. */
  function Index(tools: seq<Tool>, n: nat): map<string, Tool>
    requires n <= |tools|
  {
    if n == 0 then map[] else Index(tools, n - 1)[tools[n - 1].name := tools[n - 1]]
  }

  function Names(tools: seq<Tool>, n: nat): set<string>
    requires n <= |tools|
  {
    if n == 0 then {} else Names(tools, n - 1) + {tools[n - 1].name}
  }

  /** The names among the first n tools that a set does not hold, in order. */
  function NotIn(tools: seq<Tool>, n: nat, known: set<string>): seq<string>
    requires n <= |tools|
  {
    if n == 0 then []
    else NotIn(tools, n - 1, known) + (if tools[n - 1].name in known then [] else [tools[n - 1].name])
  }

  /** The first n parts one after another. */
  function Collected<T>(part: nat -> seq<T>, n: nat): seq<T> {
    if n == 0 then [] else Collected(part, n - 1) + part(n - 1)
  }

  /** The tools among the first n that an earlier list holds with another definition, in order. */
  function ModifiedIn(tools: seq<Tool>, n: nat, previous: map<string, Tool>): seq<ModifiedTool>
    requires n <= |tools|
  {
    Collected(Entries(tools, previous), n)
  }

  function Entries(tools: seq<Tool>, previous: map<string, Tool>): nat -> seq<ModifiedTool> {
    (i: nat) => if i < |tools| then ModifiedAs(tools[i], previous) else []
  }

  function ModifiedAs(tool: Tool, previous: map<string, Tool>): seq<ModifiedTool> {
    if tool.name !in previous then []
    else
      var before := previous[tool.name];
      if DifferentFields(before, tool) == [] then []
      else [ModifiedTool(tool.name, DifferentFields(before, tool), before)]
  }

  function ChangesOf(before: ToolList, now: ToolList): Changes {
    Changes(
      if before.complete then NotIn(now.tools, |now.tools|, Names(before.tools, |before.tools|)) else [],
      if now.complete then NotIn(before.tools, |before.tools|, Names(now.tools, |now.tools|)) else [],
      ModifiedIn(now.tools, |now.tools|, Index(before.tools, |before.tools|)))
  }

  lemma {:induction false} IndexKeys(tools: seq<Tool>, n: nat)
    requires n <= |tools|
    ensures Index(tools, n).Keys == Names(tools, n)
  {
    if n > 0 {
      IndexKeys(tools, n - 1);
    }
  }

  method IndexByName(tools: seq<Tool>) returns (byName: map<string, Tool>)
    ensures byName == Index(tools, |tools|)
  {
    byName := map[];
    for i := 0 to |tools|
      invariant byName == Index(tools, i)
    {
      byName := byName[tools[i].name := tools[i]];
    }
  }

  /** The loop over the tools of the report. */
  method Compare(byName: map<string, Tool>, complete: bool, tools: seq<Tool>)
    returns (current: set<string>, added: seq<string>, modified: seq<ModifiedTool>)
    ensures current == Names(tools, |tools|)
    ensures added == if complete then NotIn(tools, |tools|, byName.Keys) else []
    ensures modified == ModifiedIn(tools, |tools|, byName)
  {
    current, added, modified := {}, [], [];
    for i := 0 to |tools|
      invariant current == Names(tools, i)
      invariant added == if complete then NotIn(tools, i, byName.Keys) else []
      invariant modified == ModifiedIn(tools, i, byName)
    {
      var tool := tools[i];
      current := current + {tool.name};
      if tool.name !in byName {
        if complete {
          added := added + [tool.name];
        }
        continue;
      }
      var fields := FindDifferentFields(byName[tool.name], tool);
      if |fields| > 0 {
        modified := modified + [ModifiedTool(tool.name, fields, byName[tool.name])];
      }
    }
  }

  /** Additions count only against a complete list before, removals only against a complete list now. */
  method FindChanges(previous: Option<ToolList>, report: ToolList) returns (changes: Option<Changes>)
    ensures changes == if previous.None? then None else Some(ChangesOf(previous.value, report))
  {
    if previous.None? {
      return None;
    }
    var before := previous.value;
    var byName := IndexByName(before.tools);
    IndexKeys(before.tools, |before.tools|);
    var current, added, modified := Compare(byName, before.complete, report.tools);
    var removed: seq<string> := [];
    if report.complete {
      for i := 0 to |before.tools|
        invariant removed == NotIn(before.tools, i, current)
      {
        if before.tools[i].name !in current {
          removed := removed + [before.tools[i].name];
        }
      }
    }
    return Some(Changes(added, removed, modified));
  }

  // ----- what the changes mean

  ghost predicate HasName(tools: seq<Tool>, name: string) {
    exists i :: 0 <= i < |tools| && tools[i].name == name
  }

  lemma {:induction false} NotInHolds(tools: seq<Tool>, n: nat, known: set<string>, name: string)
    requires n <= |tools|
    ensures name in NotIn(tools, n, known) <==> name !in known && exists i :: 0 <= i < n && tools[i].name == name
  {
    if n > 0 {
      NotInHolds(tools, n - 1, known, name);
    }
  }

  /** Added are the names that are new, removed the names that are gone, as far as complete lists tell. */
  lemma AddedAndRemovedExactly(before: ToolList, now: ToolList, name: string)
    ensures name in ChangesOf(before, now).added <==>
            before.complete && HasName(now.tools, name) && !HasName(before.tools, name)
    ensures name in ChangesOf(before, now).removed <==>
            now.complete && HasName(before.tools, name) && !HasName(now.tools, name)
  {
    NotInHolds(now.tools, |now.tools|, Names(before.tools, |before.tools|), name);
    NotInHolds(before.tools, |before.tools|, Names(now.tools, |now.tools|), name);
    NamesHold(before.tools, |before.tools|, name);
    NamesHold(now.tools, |now.tools|, name);
  }

  // ----- order and number of the changes

  /** Positions in a list of n tools, in order, and exactly those that are chosen. */
  ghost predicate Chooses(positions: seq<nat>, n: nat, chosen: set<nat>) {
    && (forall i, j :: 0 <= i < j < |positions| ==> positions[i] < positions[j])
    && (forall i :: 0 <= i < |positions| ==> positions[i] < n && positions[i] in chosen)
    && (forall k :: 0 <= k < n && k in chosen ==> k in positions)
  }

  lemma ChooseNext(positions: seq<nat>, n: nat, chosen: set<nat>)
    requires Chooses(positions, n, chosen)
    ensures n !in chosen ==> Chooses(positions, n + 1, chosen)
    ensures n in chosen ==> Chooses(positions + [n], n + 1, chosen)
  {
    assert n in positions + [n];
    forall k | k in positions ensures k in positions + [n] {
    }
  }

  /** The tools whose names are nowhere in another list. */
  ghost function Missing(tools: seq<Tool>, other: seq<Tool>): set<nat> {
    set k: nat | k < |tools| && !HasName(other, tools[k].name)
  }

  lemma {:induction false} NotInChooses(tools: seq<Tool>, n: nat, other: seq<Tool>) returns (positions: seq<nat>)
    requires n <= |tools|
    ensures var list := NotIn(tools, n, Names(other, |other|));
            && Chooses(positions, n, Missing(tools, other)) && |positions| == |list|
            && forall i :: 0 <= i < |list| ==> list[i] == tools[positions[i]].name
  {
    positions := [];
    if n > 0 {
      positions := NotInChooses(tools, n - 1, other);
      ChooseNext(positions, n - 1, Missing(tools, other));
      NamesHold(other, |other|, tools[n - 1].name);
      if n - 1 in Missing(tools, other) {
        positions := positions + [n - 1];
      }
    }
  }

  /** Every new and every gone tool has one entry, in the order of the list that holds it. */
  lemma AddedAndRemovedInOrder(before: ToolList, now: ToolList) returns (added: seq<nat>, removed: seq<nat>)
    ensures var changes := ChangesOf(before, now);
            && |added| == |changes.added| && |removed| == |changes.removed|
            && Chooses(added, |now.tools|, if before.complete then Missing(now.tools, before.tools) else {})
            && Chooses(removed, |before.tools|, if now.complete then Missing(before.tools, now.tools) else {})
            && (forall i :: 0 <= i < |added| ==> changes.added[i] == now.tools[added[i]].name)
            && (forall i :: 0 <= i < |removed| ==> changes.removed[i] == before.tools[removed[i]].name)
  {
    added, removed := [], [];
    if before.complete {
      added := NotInChooses(now.tools, |now.tools|, before.tools);
    }
    if now.complete {
      removed := NotInChooses(before.tools, |before.tools|, now.tools);
    }
  }

  /** The tools that an earlier list, whose last tool of a name counts, holds with another definition. */
  ghost function Redefined(tools: seq<Tool>, other: seq<Tool>): set<nat> {
    set k: nat | k < |tools| && IsRedefined(tools[k], other)
  }

  ghost predicate IsRedefined(t: Tool, other: seq<Tool>) {
    exists i :: 0 <= i < |other| && IsOther(other, i, t)
  }

  /** The last tool of a name differs from a tool of that name in more than the order of arguments. */
  ghost predicate IsOther(other: seq<Tool>, i: nat, t: Tool)
    requires i < |other|
  {
    && IsLast(other, |other|, i) && other[i].name == t.name
    && (other[i].title != t.title || other[i].description != t.description
        || multiset(other[i].arguments) != multiset(t.arguments))
  }

  ghost predicate IsLast(tools: seq<Tool>, n: nat, i: nat)
    requires i < n <= |tools|
  {
    forall j :: i < j < n ==> tools[j].name != tools[i].name
  }

  lemma {:induction false} IndexHoldsLast(tools: seq<Tool>, n: nat, name: string) returns (i: nat)
    requires n <= |tools| && name in Index(tools, n)
    ensures i < n && IsLast(tools, n, i) && tools[i].name == name && Index(tools, n)[name] == tools[i]
  {
    if tools[n - 1].name == name {
      i := n - 1;
    } else {
      i := IndexHoldsLast(tools, n - 1, name);
    }
  }

  /** The last tool of a name decides whether a tool of that name is redefined. */
  lemma LastDecides(t: Tool, other: seq<Tool>, i: nat)
    requires i < |other| && IsLast(other, |other|, i) && other[i].name == t.name
    ensures IsRedefined(t, other) <==> IsOther(other, i, t)
    ensures IsRedefined(t, other) <==> Canon(other[i]) != Canon(t)
  {
    CanonMeansSameDefinition(other[i], t);
    forall j | 0 <= j < |other| && IsOther(other, j, t) ensures j == i {
      assert !(i < j) && !(j < i);
    }
  }

  ghost predicate DescribesOther(entry: ModifiedTool, t: Tool, other: seq<Tool>) {
    exists j :: 0 <= j < |other| && IsOther(other, j, t) && Describes(entry, other[j], t)
  }

  lemma ModifiedAsMeans(t: Tool, other: seq<Tool>)
    ensures var entry := ModifiedAs(t, Index(other, |other|));
            if IsRedefined(t, other) then |entry| == 1 && DescribesOther(entry[0], t, other) else entry == []
  {
    var index := Index(other, |other|);
    IndexKeys(other, |other|);
    NamesHold(other, |other|, t.name);
    if t.name in index {
      var i := IndexHoldsLast(other, |other|, t.name);
      LastDecides(t, other, i);
      NoDifferenceMeansSameCanon(other[i], t);
      ModifiedAsDescribes(t, other[i], index, ModifiedTool(t.name, DifferentFields(other[i], t), other[i]));
    }
  }

  /** Entries describe the redefined tools at the given positions, one for each. */
  ghost predicate DescribesAt(entries: seq<ModifiedTool>, tools: seq<Tool>, positions: seq<nat>, other: seq<Tool>)
    requires forall i :: 0 <= i < |positions| ==> positions[i] < |tools|
  {
    && |positions| == |entries|
    && forall i :: 0 <= i < |entries| ==> DescribesOther(entries[i], tools[positions[i]], other)
  }

  lemma DescribeMore(
    entries: seq<ModifiedTool>, entry: ModifiedTool, tools: seq<Tool>, positions: seq<nat>, n: nat, other: seq<Tool>)
    requires n < |tools| && forall i :: 0 <= i < |positions| ==> positions[i] < |tools|
    requires DescribesAt(entries, tools, positions, other) && DescribesOther(entry, tools[n], other)
    ensures forall i :: 0 <= i < |positions + [n]| ==> (positions + [n])[i] < |tools|
    ensures DescribesAt(entries + [entry], tools, positions + [n], other)
  {
  }

  lemma DescribeNext(
    entries: seq<ModifiedTool>, entry: seq<ModifiedTool>, tools: seq<Tool>, positions: seq<nat>, n: nat,
    other: seq<Tool>) returns (more: seq<nat>)
    requires n < |tools| && Chooses(positions, n, Redefined(tools, other))
    requires DescribesAt(entries, tools, positions, other)
    requires if IsRedefined(tools[n], other) then |entry| == 1 && DescribesOther(entry[0], tools[n], other)
             else entry == []
    ensures Chooses(more, n + 1, Redefined(tools, other)) && DescribesAt(entries + entry, tools, more, other)
  {
    ChooseNext(positions, n, Redefined(tools, other));
    more := positions;
    if IsRedefined(tools[n], other) {
      assert n in Redefined(tools, other);
      DescribeMore(entries, entry[0], tools, positions, n, other);
      more := positions + [n];
      assert entry == [entry[0]];
    } else {
      assert n !in Redefined(tools, other);
      assert entries + entry == entries;
    }
  }

  /** The entries are those of the redefined tools among the first n, at some positions. */
  ghost predicate ListsRedefined(entries: seq<ModifiedTool>, tools: seq<Tool>, n: nat, other: seq<Tool>)
    requires n <= |tools|
  {
    exists positions ::
      Chooses(positions, n, Redefined(tools, other)) && DescribesAt(entries, tools, positions, other)
  }

  lemma ListsNext(entries: seq<ModifiedTool>, tools: seq<Tool>, n: nat, other: seq<Tool>)
    requires n < |tools| && ListsRedefined(entries, tools, n, other)
    ensures ListsRedefined(entries + ModifiedAs(tools[n], Index(other, |other|)), tools, n + 1, other)
  {
    var positions :|
      Chooses(positions, n, Redefined(tools, other)) && DescribesAt(entries, tools, positions, other);
    ModifiedAsMeans(tools[n], other);
    var more := DescribeNext(entries, ModifiedAs(tools[n], Index(other, |other|)), tools, positions, n, other);
  }

  lemma {:induction false} ModifiedInLists(tools: seq<Tool>, n: nat, other: seq<Tool>)
    requires n <= |tools|
    ensures ListsRedefined(ModifiedIn(tools, n, Index(other, |other|)), tools, n, other)
  {
    if n == 0 {
      assert Chooses([], 0, Redefined(tools, other)) && DescribesAt([], tools, [], other);
    } else {
      ModifiedInLists(tools, n - 1, other);
      ListsNext(ModifiedIn(tools, n - 1, Index(other, |other|)), tools, n - 1, other);
    }
  }

  /** Every redefined tool has one entry that describes it, in the order of the report. */
  lemma ModifiedInOrder(before: ToolList, now: ToolList) returns (positions: seq<nat>)
    ensures Chooses(positions, |now.tools|, Redefined(now.tools, before.tools))
    ensures DescribesAt(ChangesOf(before, now).modified, now.tools, positions, before.tools)
  {
    ModifiedInLists(now.tools, |now.tools|, before.tools);
    positions :|
      && Chooses(positions, |now.tools|, Redefined(now.tools, before.tools))
      && DescribesAt(ChangesOf(before, now).modified, now.tools, positions, before.tools);
  }

  // ----- what an entry says

  lemma {:induction false} CollectedHolds<T>(part: nat -> seq<T>, n: nat, x: T)
    ensures x in Collected(part, n) <==> exists i: nat :: i < n && x in part(i)
  {
    if n > 0 {
      CollectedHolds(part, n - 1, x);
    }
  }

  lemma ModifiedInHolds(tools: seq<Tool>, n: nat, previous: map<string, Tool>, m: ModifiedTool)
    requires n <= |tools|
    ensures m in ModifiedIn(tools, n, previous) <==> exists i :: 0 <= i < n && m in ModifiedAs(tools[i], previous)
  {
    var part := Entries(tools, previous);
    CollectedHolds(part, n, m);
    forall i: nat | i < n ensures part(i) == ModifiedAs(tools[i], previous) {
    }
  }

  /** An entry names two definitions of one tool and exactly what differs between them. */
  ghost predicate Describes(m: ModifiedTool, before: Tool, after: Tool) {
    && m.name == before.name == after.name && m.previous == before && m.fields != []
    && (Title in m.fields <==> before.title != after.title)
    && (Description in m.fields <==> before.description != after.description)
    && (Arguments in m.fields <==> multiset(before.arguments) != multiset(after.arguments))
    && InPlace(m.fields)
  }

  /** The order of the fields in an entry. */
  ghost function Place(f: Field): nat {
    match f
    case Title => 0
    case Description => 1
    case Arguments => 2
  }

  ghost predicate InPlace(fields: seq<Field>) {
    forall i, j :: 0 <= i < j < |fields| ==> Place(fields[i]) < Place(fields[j])
  }

  lemma FieldListMeans(title: bool, description: bool, arguments: bool)
    ensures var fields := FieldList(title, description, arguments);
            && (Title in fields <==> title) && (Description in fields <==> description)
            && (Arguments in fields <==> arguments) && InPlace(fields)
  {
    var fields := FieldList(title, description, arguments);
    if title && description && arguments {
      assert fields == [Title, Description, Arguments];
    } else if title && description {
      assert fields == [Title, Description];
    } else if title && arguments {
      assert fields == [Title, Arguments];
    } else if description && arguments {
      assert fields == [Description, Arguments];
    }
  }

  lemma FieldsDescribe(before: Tool, after: Tool)
    requires before.name == after.name && DifferentFields(before, after) != []
    ensures Describes(ModifiedTool(after.name, DifferentFields(before, after), before), before, after)
  {
    FieldListMeans(before.title != after.title, before.description != after.description,
                   SortedArguments(before.arguments) != SortedArguments(after.arguments));
    Strings.SortedStringsUnique(before.arguments, after.arguments);
  }

  lemma ModifiedAsDescribes(tool: Tool, before: Tool, previous: map<string, Tool>, m: ModifiedTool)
    requires tool.name == before.name && tool.name in previous && previous[tool.name] == before
    ensures m in ModifiedAs(tool, previous) ==> Describes(m, before, tool)
    ensures Canon(before) != Canon(tool) ==>
              ModifiedAs(tool, previous) == [ModifiedTool(tool.name, DifferentFields(before, tool), before)]
  {
    NoDifferenceMeansSameCanon(before, tool);
    if DifferentFields(before, tool) != [] {
      FieldsDescribe(before, tool);
    }
  }

  /** Every entry describes a tool of both lists. */
  lemma ModifiedDescribesBoth(before: ToolList, now: ToolList, m: ModifiedTool) returns (i: nat, j: nat)
    requires UniqueNames(before.tools) && m in ChangesOf(before, now).modified
    ensures i < |before.tools| && j < |now.tools| && Describes(m, before.tools[i], now.tools[j])
  {
    var index := Index(before.tools, |before.tools|);
    ModifiedInHolds(now.tools, |now.tools|, index, m);
    j :| 0 <= j < |now.tools| && m in ModifiedAs(now.tools[j], index);
    IndexKeys(before.tools, |before.tools|);
    NamesHold(before.tools, |before.tools|, now.tools[j].name);
    i :| 0 <= i < |before.tools| && before.tools[i].name == now.tools[j].name;
    IndexHolds(before.tools, |before.tools|, i);
    ModifiedAsDescribes(now.tools[j], before.tools[i], index, m);
  }

  /** Every tool of both lists whose definition differs has an entry. */
  lemma DifferenceIsModified(before: ToolList, now: ToolList, i: nat, j: nat) returns (m: ModifiedTool)
    requires UniqueNames(before.tools) && i < |before.tools| && j < |now.tools|
    requires before.tools[i].name == now.tools[j].name && Canon(before.tools[i]) != Canon(now.tools[j])
    ensures m in ChangesOf(before, now).modified && Describes(m, before.tools[i], now.tools[j])
  {
    var index := Index(before.tools, |before.tools|);
    IndexHolds(before.tools, |before.tools|, i);
    m := ModifiedTool(now.tools[j].name, DifferentFields(before.tools[i], now.tools[j]), before.tools[i]);
    ModifiedAsDescribes(now.tools[j], before.tools[i], index, m);
    ModifiedInHolds(now.tools, |now.tools|, index, m);
  }

  // ----- changes and fingerprints agree

  lemma AppendEmpty<T>(a: seq<T>, b: seq<T>)
    ensures a + b == [] <==> a == [] && b == []
  {
    assert |a + b| == |a| + |b|;
  }

  lemma {:induction false} NotInEmpty(tools: seq<Tool>, n: nat, known: set<string>)
    requires n <= |tools|
    ensures NotIn(tools, n, known) == [] <==> forall i :: 0 <= i < n ==> tools[i].name in known
  {
    if n > 0 {
      NotInEmpty(tools, n - 1, known);
      AppendEmpty(NotIn(tools, n - 1, known), if tools[n - 1].name in known then [] else [tools[n - 1].name]);
    }
  }

  predicate Unmodified(tool: Tool, previous: map<string, Tool>) {
    tool.name in previous ==> DifferentFields(previous[tool.name], tool) == []
  }

  lemma UnmodifiedAddsNothing(tool: Tool, previous: map<string, Tool>)
    ensures ModifiedAs(tool, previous) == [] <==> Unmodified(tool, previous)
  {
  }

  lemma {:induction false} CollectedEmpty<T>(part: nat -> seq<T>, n: nat)
    ensures Collected(part, n) == [] <==> forall i: nat :: i < n ==> part(i) == []
  {
    if n > 0 {
      CollectedEmpty(part, n - 1);
      AppendEmpty(Collected(part, n - 1), part(n - 1));
    }
  }

  lemma ModifiedInEmpty(tools: seq<Tool>, n: nat, previous: map<string, Tool>)
    requires n <= |tools|
    ensures ModifiedIn(tools, n, previous) == [] <==> forall i :: 0 <= i < n ==> Unmodified(tools[i], previous)
  {
    var part := Entries(tools, previous);
    CollectedEmpty(part, n);
    forall i: nat | i < n ensures part(i) == [] <==> Unmodified(tools[i], previous) {
      UnmodifiedAddsNothing(tools[i], previous);
    }
  }

  lemma {:induction false} NamesHold(tools: seq<Tool>, n: nat, name: string)
    requires n <= |tools|
    ensures name in Names(tools, n) <==> exists i :: 0 <= i < n && tools[i].name == name
  {
    if n > 0 {
      NamesHold(tools, n - 1, name);
    }
  }

  lemma {:induction false} IndexHolds(tools: seq<Tool>, n: nat, i: nat)
    requires i < n <= |tools| && UniqueNames(tools)
    ensures tools[i].name in Index(tools, n) && Index(tools, n)[tools[i].name] == tools[i]
  {
    if i < n - 1 {
      IndexHolds(tools, n - 1, i);
    }
  }

  lemma NoDifferenceMeansSameCanon(before: Tool, after: Tool)
    requires before.name == after.name
    ensures DifferentFields(before, after) == [] <==> Canon(before) == Canon(after)
  {
  }

  /** A list holds a tool with the same canonical form. */
  ghost predicate HasTwin(t: Tool, b: seq<Tool>) {
    exists j :: 0 <= j < |b| && Canon(t) == Canon(b[j])
  }

  ghost predicate Covered(a: seq<Tool>, b: seq<Tool>) {
    forall i :: 0 <= i < |a| ==> HasTwin(a[i], b)
  }

  lemma CoveredMeansIncluded(a: seq<Tool>, b: seq<Tool>, t: Tool)
    requires Covered(a, b) && t in CanonAll(a)
    ensures t in CanonAll(b)
  {
    var i :| 0 <= i < |a| && CanonAll(a)[i] == t;
    assert HasTwin(a[i], b);
    var j :| 0 <= j < |b| && Canon(a[i]) == Canon(b[j]);
    assert CanonAll(b)[j] == t;
  }

  lemma CoveredBothWaysMeansSameTools(a: seq<Tool>, b: seq<Tool>)
    requires UniqueNames(a) && UniqueNames(b)
    ensures Covered(a, b) && Covered(b, a) <==> multiset(CanonAll(a)) == multiset(CanonAll(b))
  {
    if multiset(CanonAll(a)) == multiset(CanonAll(b)) {
      CoveredBySame(a, b);
      CoveredBySame(b, a);
    } else if Covered(a, b) && Covered(b, a) {
      CoveredIsSame(a, b);
    }
  }

  lemma CoveredIsSame(a: seq<Tool>, b: seq<Tool>)
    requires UniqueNames(a) && UniqueNames(b) && Covered(a, b) && Covered(b, a)
    ensures multiset(CanonAll(a)) == multiset(CanonAll(b))
  {
    CanonNames(a);
    CanonNames(b);
    forall t ensures multiset(CanonAll(a))[t] == multiset(CanonAll(b))[t] {
      DistinctCount(CanonAll(a), t);
      DistinctCount(CanonAll(b), t);
      if t in CanonAll(a) {
        CoveredMeansIncluded(a, b, t);
      } else if t in CanonAll(b) {
        CoveredMeansIncluded(b, a, t);
      }
    }
  }

  lemma CoveredBySame(a: seq<Tool>, b: seq<Tool>)
    requires multiset(CanonAll(a)) == multiset(CanonAll(b))
    ensures Covered(a, b)
  {
    var ca, cb := CanonAll(a), CanonAll(b);
    forall i | 0 <= i < |a| ensures HasTwin(a[i], b) {
      assert ca[i] in multiset(cb);
      var j :| 0 <= j < |cb| && cb[j] == ca[i];
      assert Canon(a[i]) == Canon(b[j]);
    }
  }

  lemma NothingAddedOrModified(before: seq<Tool>, now: seq<Tool>)
    requires UniqueNames(before) && UniqueNames(now)
    ensures NotIn(now, |now|, Names(before, |before|)) == []
            && ModifiedIn(now, |now|, Index(before, |before|)) == []
            <==> Covered(now, before)
  {
    var names, index := Names(before, |before|), Index(before, |before|);
    NotInEmpty(now, |now|, names);
    ModifiedInEmpty(now, |now|, index);
    IndexKeys(before, |before|);
    forall i | 0 <= i < |now|
      ensures now[i].name in names && DifferentFields(index[now[i].name], now[i]) == []
              <==> HasTwin(now[i], before)
    {
      ToolUnchanged(before, now[i]);
    }
  }

  lemma ToolUnchanged(before: seq<Tool>, t: Tool)
    requires UniqueNames(before)
    ensures Index(before, |before|).Keys == Names(before, |before|)
    ensures t.name in Names(before, |before|) && DifferentFields(Index(before, |before|)[t.name], t) == []
            <==> HasTwin(t, before)
  {
    IndexKeys(before, |before|);
    NamesHold(before, |before|, t.name);
    forall j | 0 <= j < |before| && before[j].name == t.name
      ensures Index(before, |before|)[t.name] == before[j]
      ensures DifferentFields(before[j], t) == [] <==> Canon(t) == Canon(before[j])
    {
      IndexHolds(before, |before|, j);
      NoDifferenceMeansSameCanon(before[j], t);
    }
  }

  /** A tool before whose name is still there has a twin now, if all tools now had one before. */
  lemma TwinByName(before: seq<Tool>, now: seq<Tool>, i: nat)
    requires UniqueNames(before) && Covered(now, before) && i < |before|
    ensures before[i].name in Names(now, |now|) <==> HasTwin(before[i], now)
  {
    NamesHold(now, |now|, before[i].name);
    if j :| 0 <= j < |now| && now[j].name == before[i].name {
      assert HasTwin(now[j], before);
      var k :| 0 <= k < |before| && Canon(now[j]) == Canon(before[k]);
      assert before[k].name == before[i].name;
    }
  }

  lemma NothingRemoved(before: seq<Tool>, now: seq<Tool>)
    requires UniqueNames(before) && Covered(now, before)
    ensures NotIn(before, |before|, Names(now, |now|)) == [] <==> Covered(before, now)
  {
    NotInEmpty(before, |before|, Names(now, |now|));
    forall i | 0 <= i < |before|
      ensures before[i].name in Names(now, |now|) <==> HasTwin(before[i], now)
    {
      TwinByName(before, now, i);
    }
  }

  /**
   * Between two complete lists with unique names, nothing is added, removed or modified exactly
   * when the fingerprints are the same, however tools and arguments are ordered.
   */
  lemma ChangesAgreeWithFingerprint(before: ToolList, now: ToolList)
    requires UniqueNames(before.tools) && UniqueNames(now.tools) && before.complete && now.complete
    ensures ChangesOf(before, now) == Changes([], [], []) <==> Canonical(before.tools) == Canonical(now.tools)
  {
    NothingAddedOrModified(before.tools, now.tools);
    CanonicalMeansSameTools(before.tools, now.tools);
    CoveredBothWaysMeansSameTools(before.tools, now.tools);
    if Covered(now.tools, before.tools) {
      NothingRemoved(before.tools, now.tools);
    }
  }
}
