/** The limits of an access rule: their validation, their order and the buckets they count in. */
module AccessLimit {
  import opened GoValues
  import opened Sorting
  import Strings
  import opened GoQuote

  datatype Limit = Limit(units: seq<string>, maxRequests: int, windowSeconds: int)

  datatype Subject = Subject(agentId: GoString, userId: GoString, resourceId: GoString)

  const AGENT := "agent"
  const USER := "user"
  const RESOURCE := "resource"

  const MAX_LIMITS := 8
  const MAX_COUNT := 1_000_000_000
  const MAX_WINDOW := 2_592_000

  predicate IsUnit(unit: string) {
    unit == AGENT || unit == USER || unit == RESOURCE
  }

  // ----- validation

  ghost predicate AllUnits(units: seq<string>) {
    forall i :: 0 <= i < |units| ==> units[i] == "agent" || units[i] == "user" || units[i] == "resource"
  }

  ghost predicate LimitOk(l: Limit) {
    && 1 <= l.maxRequests <= 1_000_000_000
    && 1 <= l.windowSeconds <= 2_592_000
    && AllUnits(l.units)
    && Distinct(l.units)
  }

  ghost function UnitSet(l: Limit): set<string> {
    set u | u in l.units
  }

  /** What may not repeat: a set of units with a window. */
  ghost predicate SameCell(a: Limit, b: Limit) {
    UnitSet(a) == UnitSet(b) && a.windowSeconds == b.windowSeconds
  }

  /** The declared meaning of a valid list of limits; the order of limits and units plays no part. */
  ghost predicate ValidLimits(limits: seq<Limit>) {
    && |limits| <= 8
    && (forall i :: 0 <= i < |limits| ==> LimitOk(limits[i]))
    && (forall i, j :: 0 <= i < j < |limits| ==> !SameCell(limits[i], limits[j]))
  }

  /** The units of a limit in sorted order, joined by commas. */
  function UnitsKey(l: Limit): string {
    Strings.Join(Sort(l.units, Strings.Leq))
  }

  function CellKey(l: Limit): string {
    UnitsKey(l) + ("|" + Strings.Itoa(l.windowSeconds))
  }

  lemma UnitIsWord(unit: string)
    requires IsUnit(unit)
    ensures unit != "" && Strings.All(unit, Strings.NotComma) && Strings.All(unit, Strings.NotBar)
  {
  }

  lemma {:induction false} UnitsAreJoinable(units: seq<string>)
    requires AllUnits(units)
    ensures Strings.Joinable(units) && Strings.All(Strings.Join(units), Strings.NotBar)
  {
    if units != [] {
      UnitIsWord(units[0]);
      UnitsAreJoinable(units[1..]);
    }
  }

  lemma SortedUnits(units: seq<string>)
    requires AllUnits(units)
    ensures AllUnits(Sort(units, Strings.Leq))
  {
    Strings.LeqIsTotal();
    SortSorts(units, Strings.Leq);
    var sorted := Sort(units, Strings.Leq);
    forall i | 0 <= i < |sorted| ensures IsUnit(sorted[i]) {
      assert sorted[i] in multiset(sorted);
      assert sorted[i] in units;
    }
  }

  lemma DistinctSameSet(a: seq<string>, b: seq<string>)
    requires Distinct(a) && Distinct(b)
    ensures multiset(a) == multiset(b) <==> (set u | u in a) == (set u | u in b)
  {
    var x, y := set u | u in a, set u | u in b;
    forall u
      ensures multiset(a)[u] == if u in x then 1 else 0
      ensures multiset(b)[u] == if u in y then 1 else 0
    {
      DistinctCount(a, u);
      DistinctCount(b, u);
    }
    if multiset(a) == multiset(b) {
      forall u ensures u in x <==> u in y {
        assert multiset(a)[u] == multiset(b)[u];
      }
    }
  }

  /** The key of a valid limit stands for its set of units. */
  lemma UnitsKeyMeansUnitSet(a: Limit, b: Limit)
    requires AllUnits(a.units) && Distinct(a.units) && AllUnits(b.units) && Distinct(b.units)
    ensures UnitsKey(a) == UnitsKey(b) <==> UnitSet(a) == UnitSet(b)
  {
    DistinctSameSet(a.units, b.units);
    Strings.SortedStringsUnique(a.units, b.units);
    SortedUnits(a.units);
    SortedUnits(b.units);
    UnitsAreJoinable(Sort(a.units, Strings.Leq));
    UnitsAreJoinable(Sort(b.units, Strings.Leq));
    if UnitsKey(a) == UnitsKey(b) {
      Strings.JoinInjective(Sort(a.units, Strings.Leq), Sort(b.units, Strings.Leq));
    }
  }

  /** The key that validation remembers identifies the units and the window. */
  lemma CellKeyMeansCell(a: Limit, b: Limit)
    requires LimitOk(a) && LimitOk(b)
    ensures CellKey(a) == CellKey(b) <==> SameCell(a, b)
  {
    UnitsKeyMeansUnitSet(a, b);
    if CellKey(a) == CellKey(b) {
      SortedUnits(a.units);
      SortedUnits(b.units);
      UnitsAreJoinable(Sort(a.units, Strings.Leq));
      UnitsAreJoinable(Sort(b.units, Strings.Leq));
      Strings.BarDelimited(UnitsKey(a), a.windowSeconds, UnitsKey(b), b.windowSeconds);
    }
  }

  method CheckUnits(units: seq<string>) returns (ok: bool)
    ensures ok <==> AllUnits(units) && Distinct(units)
  {
    var seen: set<string> := {};
    for i := 0 to |units|
      invariant AllUnits(units[..i]) && Distinct(units[..i])
      invariant forall u :: u in seen <==> u in units[..i]
    {
      if !IsUnit(units[i]) {
        return false;
      }
      if units[i] in seen {
        assert exists k :: 0 <= k < i && units[k] == units[i];
        return false;
      }
      seen := seen + {units[i]};
      assert units[..i + 1] == units[..i] + [units[i]];
    }
    assert units[..|units|] == units;
    return true;
  }

  method CheckLimit(limit: Limit) returns (ok: bool)
    ensures ok <==> LimitOk(limit)
  {
    if limit.maxRequests < 1 || limit.maxRequests > MAX_COUNT {
      return false;
    }
    if limit.windowSeconds < 1 || limit.windowSeconds > MAX_WINDOW {
      return false;
    }
    ok := CheckUnits(limit.units);
  }

  ghost predicate ValidUpTo(limits: seq<Limit>, n: nat)
    requires n <= |limits|
  {
    && (forall k :: 0 <= k < n ==> LimitOk(limits[k]))
    && (forall j, k :: 0 <= j < k < n ==> !SameCell(limits[j], limits[k]))
  }

  ghost predicate Seen(limits: seq<Limit>, n: nat, seen: set<string>)
    requires n <= |limits|
  {
    && (forall k :: 0 <= k < n ==> CellKey(limits[k]) in seen)
    && (forall key :: key in seen ==> exists k :: 0 <= k < n && CellKey(limits[k]) == key)
  }

  /** One more limit keeps the list valid exactly when its key is that of none before. */
  lemma NextLimit(limits: seq<Limit>, n: nat)
    requires n < |limits| && ValidUpTo(limits, n) && LimitOk(limits[n])
    ensures ValidUpTo(limits, n + 1) <==> forall k :: 0 <= k < n ==> CellKey(limits[k]) != CellKey(limits[n])
  {
    forall k | 0 <= k < n ensures CellKey(limits[k]) == CellKey(limits[n]) <==> SameCell(limits[k], limits[n]) {
      CellKeyMeansCell(limits[k], limits[n]);
    }
  }

  lemma SeenMeansRepeated(limits: seq<Limit>, n: nat, seen: set<string>)
    requires n < |limits| && ValidUpTo(limits, n) && Seen(limits, n, seen) && LimitOk(limits[n])
    ensures CellKey(limits[n]) !in seen <==> ValidUpTo(limits, n + 1)
  {
    NextLimit(limits, n);
    if CellKey(limits[n]) in seen {
      var k :| 0 <= k < n && CellKey(limits[k]) == CellKey(limits[n]);
    }
  }

  lemma SeenMore(limits: seq<Limit>, n: nat, seen: set<string>)
    requires n < |limits| && Seen(limits, n, seen)
    ensures Seen(limits, n + 1, seen + {CellKey(limits[n])})
  {
    forall key | key in seen + {CellKey(limits[n])} ensures exists k :: 0 <= k < n + 1 && CellKey(limits[k]) == key {
      if key in seen {
        var k :| 0 <= k < n && CellKey(limits[k]) == key;
      } else {
        assert CellKey(limits[n]) == key;
      }
    }
  }

  /** validateResourceAccessLimits accepts exactly the lists with the declared meaning. */
  method ValidateLimits(limits: seq<Limit>) returns (ok: bool)
    ensures ok <==> ValidLimits(limits)
  {
    if |limits| > MAX_LIMITS {
      return false;
    }
    var seen: set<string> := {};
    for i := 0 to |limits|
      invariant ValidUpTo(limits, i) && Seen(limits, i, seen)
    {
      var limitOk := CheckLimit(limits[i]);
      if !limitOk {
        return false;
      }
      SeenMeansRepeated(limits, i, seen);
      var key := CellKey(limits[i]);
      if key in seen {
        return false;
      }
      SeenMore(limits, i, seen);
      seen := seen + {key};
    }
    return true;
  }

  // ----- the order in which limits are counted

  /** The comparison of OrderedLimits, as "not after": more units first, then shorter windows, then keys. */
  predicate NotAfter(a: Limit, b: Limit) {
    if |a.units| != |b.units| then |a.units| > |b.units|
    else if a.windowSeconds != b.windowSeconds then a.windowSeconds < b.windowSeconds
    else Strings.Leq(UnitsKey(a), UnitsKey(b))
  }

  function OrderedLimits(limits: seq<Limit>): seq<Limit> {
    Sort(limits, NotAfter)
  }

  lemma NotAfterIsTotal()
    ensures Total(NotAfter)
  {
    forall a, b ensures NotAfter(a, b) || NotAfter(b, a) {
      Strings.LeqTotal(UnitsKey(a), UnitsKey(b));
    }
    forall a, b, c | NotAfter(a, b) && NotAfter(b, c) ensures NotAfter(a, c) {
      if |a.units| == |b.units| == |c.units| && a.windowSeconds == b.windowSeconds == c.windowSeconds {
        Strings.LeqTransitive(UnitsKey(a), UnitsKey(b), UnitsKey(c));
      }
    }
  }

  /** On valid limits the comparison tells any two apart: the order is strict and total. */
  lemma NotAfterIsStrict(limits: seq<Limit>, i: nat, j: nat)
    requires ValidLimits(limits) && i < |limits| && j < |limits| && i != j
    ensures NotAfter(limits[i], limits[j]) <==> !NotAfter(limits[j], limits[i])
  {
    var a, b := limits[i], limits[j];
    Strings.LeqTotal(UnitsKey(a), UnitsKey(b));
    UnitsKeyMeansUnitSet(a, b);
    if i < j {
      assert !SameCell(limits[i], limits[j]);
    } else {
      assert !SameCell(limits[j], limits[i]);
    }
  }

  /** So the order of counting is a sorted permutation that does not depend on the declaration. */
  lemma OrderedLimitsIgnoresDeclaration(limits: seq<Limit>, declared: seq<Limit>)
    requires ValidLimits(limits) && multiset(limits) == multiset(declared)
    ensures OrderedLimits(declared) == OrderedLimits(limits)
    ensures Ordered(OrderedLimits(limits), NotAfter) && multiset(OrderedLimits(limits)) == multiset(limits)
  {
    NotAfterIsTotal();
    SortSorts(limits, NotAfter);
    forall a, b | a in multiset(limits) && b in multiset(limits) && NotAfter(a, b) && NotAfter(b, a)
      ensures a == b
    {
      var i :| 0 <= i < |limits| && limits[i] == a;
      var j :| 0 <= j < |limits| && limits[j] == b;
      if i != j {
        NotAfterIsStrict(limits, i, j);
      }
    }
    SortIgnoresOrder(limits, declared, NotAfter);
  }

  /** More units are counted first, with as many the shorter window, and with the same window by the units' names. */
  lemma NarrowestIsCountedFirst(limits: seq<Limit>, i: nat, j: nat)
    requires i < j < |limits|
    ensures |OrderedLimits(limits)| == |limits|
    ensures var first, later := OrderedLimits(limits)[i], OrderedLimits(limits)[j];
            || |first.units| > |later.units|
            || (|first.units| == |later.units| && first.windowSeconds < later.windowSeconds)
            || (|first.units| == |later.units| && first.windowSeconds == later.windowSeconds
                && Strings.Leq(UnitsKey(first), UnitsKey(later)))
  {
    NotAfterIsTotal();
    SortSorts(limits, NotAfter);
    assert |multiset(OrderedLimits(limits))| == |multiset(limits)|;
    assert NotAfter(OrderedLimits(limits)[i], OrderedLimits(limits)[j]);
  }

  // ----- buckets

  /** What a unit adds to the bucket: nothing if the limit does not name it, None if it has no value. */
  function Part(l: Limit, name: string, value: GoString, printable: char -> bool): Option<string> {
    if name !in l.units then Some("")
    else if value == [] then None
    else Some(":" + name + "=" + Quote(value, printable))
  }

  /** The units in the fixed order of the bucket, whatever the order of the limit. */
  function UnitValues(s: Subject): (u: seq<(string, GoString)>)
    ensures |u| == 3
  {
    [(AGENT, s.agentId), (USER, s.userId), (RESOURCE, s.resourceId)]
  }

  function BucketUpTo(l: Limit, values: seq<(string, GoString)>, n: nat, printable: char -> bool): Option<string>
    requires n <= |values|
  {
    if n == 0 then Some(Strings.Itoa(l.windowSeconds))
    else
      var before := BucketUpTo(l, values, n - 1, printable);
      var part := Part(l, values[n - 1].0, values[n - 1].1, printable);
      if before.None? || part.None? then None else Some(before.value + part.value)
  }

  function BucketOf(l: Limit, s: Subject, printable: char -> bool): Option<string> {
    BucketUpTo(l, UnitValues(s), 3, printable)
  }

  lemma {:induction false} MissingValueMissesBucket(
    l: Limit, values: seq<(string, GoString)>, n: nat, m: nat, printable: char -> bool)
    requires n <= m <= |values| && BucketUpTo(l, values, n, printable).None?
    ensures BucketUpTo(l, values, m, printable).None?
  {
    if n < m {
      MissingValueMissesBucket(l, values, n, m - 1, printable);
    }
  }

  /** A unit and its value as the bucket shows them, if the limit names the unit. */
  function Shown(l: Limit, name: string, value: GoString, printable: char -> bool): string {
    if name in l.units then ":" + name + "=" + Quote(value, printable) else ""
  }

  /** A limit applies to a subject that has a value for each unit it names; the bucket shows them all. */
  lemma BucketShowsValues(l: Limit, s: Subject, printable: char -> bool)
    ensures BucketOf(l, s, printable).Some? <==>
            && ("agent" in l.units ==> s.agentId != [])
            && ("user" in l.units ==> s.userId != [])
            && ("resource" in l.units ==> s.resourceId != [])
    ensures BucketOf(l, s, printable).Some? ==>
              BucketOf(l, s, printable).value ==
              Strings.Itoa(l.windowSeconds) + Shown(l, "agent", s.agentId, printable)
              + Shown(l, "user", s.userId, printable) + Shown(l, "resource", s.resourceId, printable)
  {
    var values := UnitValues(s);
    assert BucketUpTo(l, values, 0, printable) == Some(Strings.Itoa(l.windowSeconds));
    assert values[0] == (AGENT, s.agentId) && values[1] == (USER, s.userId) && values[2] == (RESOURCE, s.resourceId);
    assert BucketUpTo(l, values, 1, printable).Some? <==> Part(l, AGENT, s.agentId, printable).Some?;
    assert BucketUpTo(l, values, 2, printable).Some? <==>
           BucketUpTo(l, values, 1, printable).Some? && Part(l, USER, s.userId, printable).Some?;
  }

  method Bucket(l: Limit, s: Subject, printable: char -> bool) returns (bucket: Option<string>)
    ensures bucket == BucketOf(l, s, printable)
    ensures bucket.Some? <==>
            && ("agent" in l.units ==> s.agentId != [])
            && ("user" in l.units ==> s.userId != [])
            && ("resource" in l.units ==> s.resourceId != [])
  {
    BucketShowsValues(l, s, printable);
    var values := UnitValues(s);
    var text := Strings.Itoa(l.windowSeconds);
    for i := 0 to |values|
      invariant BucketUpTo(l, values, i, printable) == Some(text)
    {
      var (name, value) := values[i];
      if name !in l.units {
        assert text + "" == text;
        continue;
      }
      if value == [] {
        MissingValueMissesBucket(l, values, i + 1, 3, printable);
        return None;
      }
      text := text + (":" + name + "=" + Quote(value, printable));
    }
    return Some(text);
  }

  /** The value that counts a subject under a limit: that of each unit the limit names. */
  ghost predicate SameCounter(l: Limit, s: Subject, m: Limit, t: Subject) {
    && l.windowSeconds == m.windowSeconds
    && SameUnit(l, s.agentId, m, t.agentId, AGENT)
    && SameUnit(l, s.userId, m, t.userId, USER)
    && SameUnit(l, s.resourceId, m, t.resourceId, RESOURCE)
  }

  predicate SameUnit(l: Limit, v: GoString, m: Limit, w: GoString, name: string) {
    (name in l.units <==> name in m.units) && (name in l.units ==> v == w)
  }

  /** A part is told from what follows by the character after its colon. */
  predicate StartsOther(rest: string, letter: char) {
    rest == "" || (|rest| >= 2 && rest[0] == ':' && rest[1] != letter)
  }

  lemma PartText(l: Limit, v: GoString, x: string, name: string, printable: char -> bool)
    requires name != "" && Part(l, name, v, printable).Some?
    ensures var p := Part(l, name, v, printable).value + x;
            if name in l.units then
              p == (":" + name + "=") + (Quote(v, printable) + x) && |p| >= 2 && p[0] == ':' && p[1] == name[0]
            else p == x
  {
    if name in l.units {
      assert ":" + name + "=" + Quote(v, printable) + x == (":" + name + "=") + (Quote(v, printable) + x);
    } else {
      assert "" + x == x;
    }
  }

  lemma PartSplits(
    l: Limit, v: GoString, x: string, m: Limit, w: GoString, y: string, name: string, printable: char -> bool)
    requires name != "" && StartsOther(x, name[0]) && StartsOther(y, name[0])
    requires Part(l, name, v, printable).Some? && Part(m, name, w, printable).Some?
    requires Part(l, name, v, printable).value + x == Part(m, name, w, printable).value + y
    ensures SameUnit(l, v, m, w, name) && x == y
  {
    PartText(l, v, x, name, printable);
    PartText(m, w, y, name, printable);
    if name in l.units && name in m.units {
      Strings.CancelPrefix(":" + name + "=", Quote(v, printable) + x, Quote(w, printable) + y);
      QuoteDelimited(v, x, w, y, printable);
    }
  }

  lemma PartStarts(l: Limit, v: GoString, name: string, rest: string, letter: char, printable: char -> bool)
    requires name != "" && name[0] != letter && StartsOther(rest, letter) && Part(l, name, v, printable).Some?
    ensures StartsOther(Part(l, name, v, printable).value + rest, letter)
  {
  }

  /** The parts of a bucket after its window. */
  function Parts(l: Limit, s: Subject, printable: char -> bool): Option<string> {
    var agent := Part(l, AGENT, s.agentId, printable);
    var user := Part(l, USER, s.userId, printable);
    var resource := Part(l, RESOURCE, s.resourceId, printable);
    if agent.None? || user.None? || resource.None? then None
    else Some(agent.value + (user.value + (resource.value + "")))
  }

  lemma Regroup(t: string, a: string, u: string, r: string)
    ensures t + a + u + r == t + (a + (u + (r + "")))
  {
  }

  lemma BucketOfParts(l: Limit, s: Subject, printable: char -> bool)
    ensures var a, u, r := Part(l, AGENT, s.agentId, printable), Part(l, USER, s.userId, printable),
                           Part(l, RESOURCE, s.resourceId, printable);
            BucketOf(l, s, printable) ==
            if a.None? || u.None? || r.None? then None
            else Some(Strings.Itoa(l.windowSeconds) + a.value + u.value + r.value)
  {
    var v := UnitValues(s);
    var one := BucketUpTo(l, v, 1, printable);
    var two := BucketUpTo(l, v, 2, printable);
    assert BucketUpTo(l, v, 0, printable) == Some(Strings.Itoa(l.windowSeconds));
  }

  lemma BucketIsParts(l: Limit, s: Subject, printable: char -> bool)
    ensures BucketOf(l, s, printable) ==
            if Parts(l, s, printable).None? then None
            else Some(Strings.Itoa(l.windowSeconds) + Parts(l, s, printable).value)
  {
    BucketOfParts(l, s, printable);
    if Parts(l, s, printable).Some? {
      Regroup(Strings.Itoa(l.windowSeconds), Part(l, AGENT, s.agentId, printable).value,
              Part(l, USER, s.userId, printable).value, Part(l, RESOURCE, s.resourceId, printable).value);
    }
  }

  /**
   * Two buckets are the same text exactly when they count the same thing: the same window, the
   * same units, and the same value of every unit, whatever characters the values contain.
   */
  lemma BucketUnambiguous(l: Limit, s: Subject, m: Limit, t: Subject, printable: char -> bool)
    requires l.windowSeconds >= 0 && m.windowSeconds >= 0
    requires BucketOf(l, s, printable).Some? && BucketOf(m, t, printable).Some?
    ensures BucketOf(l, s, printable) == BucketOf(m, t, printable) <==> SameCounter(l, s, m, t)
    ensures LimitOk(l) && LimitOk(m) && BucketOf(l, s, printable) == BucketOf(m, t, printable) ==> SameCell(l, m)
  {
    BucketIsParts(l, s, printable);
    BucketIsParts(m, t, printable);
    if BucketOf(l, s, printable) == BucketOf(m, t, printable) {
      var r1 := Part(l, RESOURCE, s.resourceId, printable).value + "";
      var r2 := Part(m, RESOURCE, t.resourceId, printable).value + "";
      var u1, u2 := Part(l, USER, s.userId, printable).value + r1, Part(m, USER, t.userId, printable).value + r2;
      PartStarts(l, s.resourceId, RESOURCE, "", 'u', printable);
      PartStarts(m, t.resourceId, RESOURCE, "", 'u', printable);
      PartStarts(l, s.resourceId, RESOURCE, "", 'a', printable);
      PartStarts(m, t.resourceId, RESOURCE, "", 'a', printable);
      PartStarts(l, s.userId, USER, r1, 'a', printable);
      PartStarts(m, t.userId, USER, r2, 'a', printable);
      PartsDelimited(l, s, m, t, printable);
      PartSplits(l, s.agentId, u1, m, t.agentId, u2, AGENT, printable);
      PartSplits(l, s.userId, r1, m, t.userId, r2, USER, printable);
      PartSplits(l, s.resourceId, "", m, t.resourceId, "", RESOURCE, printable);
    }
  }

  lemma PartsDelimited(l: Limit, s: Subject, m: Limit, t: Subject, printable: char -> bool)
    requires l.windowSeconds >= 0 && m.windowSeconds >= 0
    requires Parts(l, s, printable).Some? && Parts(m, t, printable).Some?
    requires Strings.Itoa(l.windowSeconds) + Parts(l, s, printable).value ==
             Strings.Itoa(m.windowSeconds) + Parts(m, t, printable).value
    ensures l.windowSeconds == m.windowSeconds && Parts(l, s, printable) == Parts(m, t, printable)
  {
    PartsStart(l, s, printable);
    PartsStart(m, t, printable);
    Strings.ItoaDelimited(l.windowSeconds, Parts(l, s, printable).value,
                          m.windowSeconds, Parts(m, t, printable).value);
  }

  lemma PartsStart(l: Limit, s: Subject, printable: char -> bool)
    requires Parts(l, s, printable).Some?
    ensures Strings.Ends(Parts(l, s, printable).value, Strings.IsDigit)
  {
    var r := Part(l, RESOURCE, s.resourceId, printable).value + "";
    PartStarts(l, s.resourceId, RESOURCE, "", ' ', printable);
    PartStarts(l, s.userId, USER, r, ' ', printable);
    PartStarts(l, s.agentId, AGENT, Part(l, USER, s.userId, printable).value + r, ' ', printable);
  }
}
