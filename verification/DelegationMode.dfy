/** Actor chains (the act claim of section 4.1 of RFC 8693): who acts for whom, and who took part. */
module DelegationMode {
  import opened GoValues
  import opened Sorting

  /** One act node: its actor, if it names one as a string, and the act node nested in it. */
  datatype Level = Level(actor: Option<string>, nested: Option<nat>)

  /** Nodes by reference, so that a chain built in memory can be cyclic. */
  type Nodes = nat -> Level

  datatype Mode = Direct | Autonomous | OnBehalfOf

  datatype Subject = Subject(sub: string, clientId: string, principalType: string, act: Option<nat>)

  const AGENT := "agent"
  const MAX_SCAN := 64

  // ----- the chain as a sequence of levels

  /** The node at a depth of the chain, if it goes that deep. */
  function At(nodes: Nodes, act: Option<nat>, depth: nat): Option<nat> {
    if depth == 0 then act
    else
      var outer := At(nodes, act, depth - 1);
      if outer.None? then None else nodes(outer.value).nested
  }

  function ActorOf(level: Level): string {
    if level.actor.Some? then level.actor.value else ""
  }

  /** The actor at a depth; empty where the level names none or the chain has ended. */
  function ActorAt(nodes: Nodes, act: Option<nat>, depth: nat): string {
    var node := At(nodes, act, depth);
    if node.None? then "" else ActorOf(nodes(node.value))
  }

  lemma {:induction false} EndedStaysEnded(nodes: Nodes, act: Option<nat>, from: nat, depth: nat)
    requires from <= depth && At(nodes, act, from).None?
    ensures At(nodes, act, depth).None?
  {
    if from < depth {
      EndedStaysEnded(nodes, act, from, depth - 1);
    }
  }

  predicate NamesOther(nodes: Nodes, act: Option<nat>, sub: string, depth: nat) {
    ActorAt(nodes, act, depth) != "" && ActorAt(nodes, act, depth) != sub
  }

  /** Someone other than the subject acts within the depth that is looked at. */
  ghost predicate OtherActs(nodes: Nodes, act: Option<nat>, sub: string) {
    exists depth :: 0 <= depth < MAX_SCAN && NamesOther(nodes, act, sub, depth)
  }

  ghost predicate TooDeep(nodes: Nodes, act: Option<nat>) {
    At(nodes, act, MAX_SCAN).Some?
  }

  // ----- the chain without depths

  /** The nodes of the chain from the outermost on, as far as the path goes. */
  ghost predicate IsChain(nodes: Nodes, act: Option<nat>, path: seq<nat>) {
    && path != [] && act == Some(path[0])
    && forall i :: 0 <= i < |path| - 1 ==> nodes(path[i]).nested == Some(path[i + 1])
  }

  lemma {:induction false} ChainToDepth(nodes: Nodes, act: Option<nat>, depth: nat) returns (path: seq<nat>)
    requires At(nodes, act, depth).Some?
    ensures IsChain(nodes, act, path) && |path| == depth + 1 && At(nodes, act, depth) == Some(path[depth])
  {
    if depth == 0 {
      path := [act.value];
    } else {
      path := ChainToDepth(nodes, act, depth - 1);
      path := path + [At(nodes, act, depth).value];
    }
  }

  lemma {:induction false} ChainReaches(nodes: Nodes, act: Option<nat>, path: seq<nat>, depth: nat)
    requires IsChain(nodes, act, path) && depth < |path|
    ensures At(nodes, act, depth) == Some(path[depth])
  {
    if depth > 0 {
      ChainReaches(nodes, act, path, depth - 1);
      assert nodes(path[depth - 1]).nested == Some(path[depth]);
    }
  }

  /** The innermost node of the path names someone. */
  ghost predicate EndNames(nodes: Nodes, path: seq<nat>, id: string)
    requires path != []
  {
    nodes(path[|path| - 1]).actor == Some(id)
  }

  /** Someone acts at a depth exactly when the chain of that length ends at a node that names them. */
  lemma ActorMeansChain(nodes: Nodes, act: Option<nat>, depth: nat, id: string)
    requires id != ""
    ensures ActorAt(nodes, act, depth) == id <==>
            exists path :: IsChain(nodes, act, path) && |path| == depth + 1 && EndNames(nodes, path, id)
  {
    if At(nodes, act, depth).Some? {
      var path := ChainToDepth(nodes, act, depth);
      assert ActorAt(nodes, act, depth) == id ==> EndNames(nodes, path, id);
    }
    if path :| IsChain(nodes, act, path) && |path| == depth + 1 && EndNames(nodes, path, id) {
      ChainReaches(nodes, act, path, depth);
    }
  }

  /** A chain of at most 64 nodes ends at one that names someone. */
  ghost predicate ChainNames(nodes: Nodes, act: Option<nat>, id: string) {
    exists path :: IsChain(nodes, act, path) && |path| <= 64 && EndNames(nodes, path, id)
  }

  /** A chain of 65 nodes. */
  ghost predicate ChainGoesOn(nodes: Nodes, act: Option<nat>) {
    exists path :: IsChain(nodes, act, path) && |path| == 65
  }

  lemma ChainNamesMeans(nodes: Nodes, act: Option<nat>, id: string)
    requires id != ""
    ensures ChainNames(nodes, act, id) <==> exists d :: 0 <= d < MAX_SCAN && ActorAt(nodes, act, d) == id
  {
    if path :| IsChain(nodes, act, path) && |path| <= 64 && EndNames(nodes, path, id) {
      ActorMeansChain(nodes, act, |path| - 1, id);
    }
    if d :| 0 <= d < MAX_SCAN && ActorAt(nodes, act, d) == id {
      ActorMeansChain(nodes, act, d, id);
    }
  }

  /** Another actor stands at the end of a chain of at most 64 nodes. */
  ghost predicate ChainNamesOther(nodes: Nodes, act: Option<nat>, sub: string) {
    exists id :: id != "" && id != sub && ChainNames(nodes, act, id)
  }

  lemma OtherActsMeans(nodes: Nodes, act: Option<nat>, sub: string)
    ensures OtherActs(nodes, act, sub) <==> ChainNamesOther(nodes, act, sub)
  {
    if d :| 0 <= d < MAX_SCAN && NamesOther(nodes, act, sub, d) {
      ChainNamesMeans(nodes, act, ActorAt(nodes, act, d));
    }
    if id :| id != "" && id != sub && ChainNames(nodes, act, id) {
      ChainNamesMeans(nodes, act, id);
      var d :| 0 <= d < MAX_SCAN && ActorAt(nodes, act, d) == id;
      assert NamesOther(nodes, act, sub, d);
    }
  }

  lemma TooDeepMeans(nodes: Nodes, act: Option<nat>)
    ensures TooDeep(nodes, act) <==> ChainGoesOn(nodes, act)
  {
    if TooDeep(nodes, act) {
      var path := ChainToDepth(nodes, act, MAX_SCAN);
    }
    if path :| IsChain(nodes, act, path) && |path| == 65 {
      ChainReaches(nodes, act, path, MAX_SCAN);
    }
  }

  // ----- the two walks

  /** actChainDelegates: stops at the first other actor, and takes a chain that is too deep for one. */
  method ActChainDelegates(nodes: Nodes, start: Option<nat>, sub: string) returns (delegates: bool)
    ensures delegates <==> OtherActs(nodes, start, sub) || TooDeep(nodes, start)
    ensures delegates <==> ChainNamesOther(nodes, start, sub) || ChainGoesOn(nodes, start)
  {
    OtherActsMeans(nodes, start, sub);
    TooDeepMeans(nodes, start);
    var act := start;
    var depth := 0;
    while act.Some?
      invariant 0 <= depth <= MAX_SCAN && act == At(nodes, start, depth)
      invariant forall d :: 0 <= d < depth ==> !NamesOther(nodes, start, sub, d)
      decreases MAX_SCAN - depth
    {
      if depth >= MAX_SCAN {
        return true;
      }
      var actor := ActorOf(nodes(act.value));
      assert actor == ActorAt(nodes, start, depth);
      if actor != "" && actor != sub {
        assert NamesOther(nodes, start, sub, depth);
        return true;
      }
      act := nodes(act.value).nested;
      depth := depth + 1;
    }
    forall d | depth <= d <= MAX_SCAN ensures At(nodes, start, d).None? {
      EndedStaysEnded(nodes, start, depth, d);
    }
    return false;
  }

  /** Appends a participant that is named and not yet listed. */
  function Add(participants: seq<string>, id: string): seq<string> {
    if id == "" || id in participants then participants else participants + [id]
  }

  function Actors(nodes: Nodes, act: Option<nat>, levels: nat): seq<string> {
    if levels == 0 then [] else Add(Actors(nodes, act, levels - 1), ActorAt(nodes, act, levels - 1))
  }

  /** The actors from the outermost on, and the subject last. */
  function Participants(nodes: Nodes, act: Option<nat>, sub: string): seq<string> {
    Add(Actors(nodes, act, MAX_SCAN), sub)
  }

  lemma {:induction false} EndedAddsNobody(nodes: Nodes, act: Option<nat>, from: nat, levels: nat)
    requires from <= levels && At(nodes, act, from).None?
    ensures Actors(nodes, act, levels) == Actors(nodes, act, from)
  {
    if from < levels {
      EndedAddsNobody(nodes, act, from, levels - 1);
      EndedStaysEnded(nodes, act, from, levels - 1);
    }
  }

  method ActorChainParticipants(nodes: Nodes, start: Option<nat>, sub: string) returns (participants: seq<string>)
    ensures participants == Participants(nodes, start, sub)
    ensures forall id :: id in participants <==> id != "" && (id == sub || ChainNames(nodes, start, id))
  {
    forall id
      ensures id in Participants(nodes, start, sub) <==> id != "" && (id == sub || ChainNames(nodes, start, id))
    {
      ParticipantsNamed(nodes, start, sub, id);
    }
    participants := [];
    var seen: set<string> := {};
    var act := start;
    var depth := 0;
    while act.Some? && depth < MAX_SCAN
      invariant 0 <= depth <= MAX_SCAN && act == At(nodes, start, depth)
      invariant participants == Actors(nodes, start, depth)
      invariant forall id :: id in seen <==> id in participants
      decreases MAX_SCAN - depth
    {
      var actor := ActorOf(nodes(act.value));
      if actor != "" && actor !in seen {
        seen := seen + {actor};
        participants := participants + [actor];
      }
      act := nodes(act.value).nested;
      depth := depth + 1;
    }
    if act.None? {
      EndedAddsNobody(nodes, start, depth, MAX_SCAN);
    }
    if sub != "" && sub !in seen {
      participants := participants + [sub];
    }
  }

  method DeriveDelegationMode(nodes: Nodes, s: Subject) returns (mode: Mode)
    ensures mode.OnBehalfOf? <==> OtherActs(nodes, s.act, s.sub) || TooDeep(nodes, s.act)
    ensures mode.OnBehalfOf? <==> ChainNamesOther(nodes, s.act, s.sub) || ChainGoesOn(nodes, s.act)
    ensures !mode.OnBehalfOf? ==>
              (mode.Autonomous? <==> s.principalType == "agent" || s.sub == "" || s.sub == s.clientId)
  {
    var delegates := ActChainDelegates(nodes, s.act, s.sub);
    if delegates {
      return OnBehalfOf;
    }
    return if s.principalType == AGENT || s.sub == "" || s.sub == s.clientId then Autonomous else Direct;
  }

  // ----- what the participants are

  /** The depth at which a participant is met first; the subject stands below every level. */
  ghost predicate FirstAt(nodes: Nodes, act: Option<nat>, sub: string, id: string, depth: nat) {
    && depth <= MAX_SCAN && id != ""
    && id == (if depth < MAX_SCAN then ActorAt(nodes, act, depth) else sub)
    && forall d :: 0 <= d < depth ==> ActorAt(nodes, act, d) != id
  }

  /** What the first levels contribute: the actors met first there, each with its depth. */
  ghost predicate Listed(
    nodes: Nodes, act: Option<nat>, sub: string, list: seq<string>, depths: seq<nat>, levels: nat)
  {
    && |depths| == |list|
    && (forall i :: 0 <= i < |list| ==> depths[i] < levels && FirstAt(nodes, act, sub, list[i], depths[i]))
    && (forall i, j :: 0 <= i < j < |list| ==> depths[i] < depths[j])
  }

  lemma {:induction false} ActorsHold(nodes: Nodes, act: Option<nat>, levels: nat, id: string)
    ensures id in Actors(nodes, act, levels) <==>
            id != "" && exists d :: 0 <= d < levels && ActorAt(nodes, act, d) == id
  {
    if levels > 0 {
      ActorsHold(nodes, act, levels - 1, id);
    }
  }

  lemma ListedMore(
    nodes: Nodes, act: Option<nat>, sub: string, list: seq<string>, depths: seq<nat>, id: string, depth: nat)
    returns (more: seq<nat>)
    requires Listed(nodes, act, sub, list, depths, depth)
    requires id == "" || id in list || FirstAt(nodes, act, sub, id, depth)
    ensures Listed(nodes, act, sub, Add(list, id), more, depth + 1)
  {
    more := if id == "" || id in list then depths else depths + [depth];
  }

  lemma ListedNextActor(nodes: Nodes, act: Option<nat>, sub: string, depths: seq<nat>, level: nat)
    returns (more: seq<nat>)
    requires level < MAX_SCAN && Listed(nodes, act, sub, Actors(nodes, act, level), depths, level)
    ensures Listed(nodes, act, sub, Actors(nodes, act, level + 1), more, level + 1)
  {
    ActorsHold(nodes, act, level, ActorAt(nodes, act, level));
    more := ListedMore(nodes, act, sub, Actors(nodes, act, level), depths, ActorAt(nodes, act, level), level);
  }

  lemma {:induction false} ActorsListed(nodes: Nodes, act: Option<nat>, sub: string, levels: nat)
    returns (depths: seq<nat>)
    requires levels <= MAX_SCAN
    ensures Listed(nodes, act, sub, Actors(nodes, act, levels), depths, levels)
  {
    depths := [];
    if levels > 0 {
      depths := ActorsListed(nodes, act, sub, levels - 1);
      depths := ListedNextActor(nodes, act, sub, depths, levels - 1);
    }
  }

  lemma {:induction false} AtMost(depths: seq<nat>, bound: nat)
    requires forall i, j :: 0 <= i < j < |depths| ==> depths[i] < depths[j]
    requires forall i :: 0 <= i < |depths| ==> depths[i] < bound
    ensures |depths| <= bound
  {
    if depths != [] {
      AtMost(depths[..|depths| - 1], depths[|depths| - 1]);
    }
  }

  /** Participants stand in the order in which the chain names them first, and the subject last. */
  lemma ParticipantsInOrder(nodes: Nodes, act: Option<nat>, sub: string) returns (depths: seq<nat>)
    ensures Listed(nodes, act, sub, Participants(nodes, act, sub), depths, MAX_SCAN + 1)
  {
    depths := ActorsListed(nodes, act, sub, MAX_SCAN);
    ActorsHold(nodes, act, MAX_SCAN, sub);
    depths := ListedMore(nodes, act, sub, Actors(nodes, act, MAX_SCAN), depths, sub, MAX_SCAN);
  }

  /** Everyone is listed once, and at most one for each level and the subject. */
  lemma ParticipantsDistinct(nodes: Nodes, act: Option<nat>, sub: string)
    ensures Distinct(Participants(nodes, act, sub)) && |Participants(nodes, act, sub)| <= MAX_SCAN + 1
  {
    var depths := ParticipantsInOrder(nodes, act, sub);
    AtMost(depths, MAX_SCAN + 1);
    var list := Participants(nodes, act, sub);
    forall i, j | 0 <= i < j < |list| ensures list[i] != list[j] {
      assert FirstAt(nodes, act, sub, list[i], depths[i]) && FirstAt(nodes, act, sub, list[j], depths[j]);
    }
  }

  lemma ParticipantsHold(nodes: Nodes, act: Option<nat>, sub: string, id: string)
    ensures id in Participants(nodes, act, sub) <==>
            id != "" && (id == sub || exists d :: 0 <= d < MAX_SCAN && ActorAt(nodes, act, d) == id)
  {
    ActorsHold(nodes, act, MAX_SCAN, id);
  }

  lemma ParticipantsNamed(nodes: Nodes, act: Option<nat>, sub: string, id: string)
    ensures id in Participants(nodes, act, sub) <==> id != "" && (id == sub || ChainNames(nodes, act, id))
  {
    ParticipantsHold(nodes, act, sub, id);
    if id != "" {
      ChainNamesMeans(nodes, act, id);
    }
  }

  // ----- the two walks agree

  /** The participants name someone besides the subject exactly when someone else acts. */
  lemma OthersParticipate(nodes: Nodes, act: Option<nat>, sub: string)
    ensures (exists id :: id in Participants(nodes, act, sub) && id != sub) <==> OtherActs(nodes, act, sub)
  {
    if id :| id in Participants(nodes, act, sub) && id != sub {
      ParticipantsHold(nodes, act, sub, id);
      var d :| 0 <= d < MAX_SCAN && ActorAt(nodes, act, d) == id;
      assert NamesOther(nodes, act, sub, d);
    }
    if d :| 0 <= d < MAX_SCAN && NamesOther(nodes, act, sub, d) {
      ParticipantsHold(nodes, act, sub, ActorAt(nodes, act, d));
    }
  }

  lemma AtMostOne(list: seq<string>, only: string)
    requires Distinct(list) && forall i :: 0 <= i < |list| ==> list[i] == only
    ensures list == if only in list then [only] else []
  {
    DistinctSetSize(list);
    if only in list {
      assert (set x | x in list) == {only};
    } else {
      assert list == [];
    }
  }

  /** Without another actor the subject stands alone, if it is named. */
  lemma SubjectAlone(nodes: Nodes, act: Option<nat>, sub: string)
    requires !OtherActs(nodes, act, sub)
    ensures Participants(nodes, act, sub) == if sub == "" then [] else [sub]
  {
    OthersParticipate(nodes, act, sub);
    ParticipantsHold(nodes, act, sub, sub);
    ParticipantsDistinct(nodes, act, sub);
    var list := Participants(nodes, act, sub);
    forall i | 0 <= i < |list| ensures list[i] == sub {
      assert list[i] in list;
    }
    AtMostOne(list, sub);
  }

  /**
   * A mode and a list of participants taken from one token agree: the mode is on behalf of someone
   * exactly when another participant is listed or the chain is deeper than both walks look.
   */
  method DescribeDelegation(nodes: Nodes, s: Subject) returns (mode: Mode, participants: seq<string>)
    ensures mode.OnBehalfOf? <==> (exists id :: id in participants && id != s.sub) || TooDeep(nodes, s.act)
    ensures !mode.OnBehalfOf? ==> participants == if s.sub == "" then [] else [s.sub]
    ensures Distinct(participants) && |participants| <= MAX_SCAN + 1
  {
    mode := DeriveDelegationMode(nodes, s);
    participants := ActorChainParticipants(nodes, s.act, s.sub);
    OthersParticipate(nodes, s.act, s.sub);
    ParticipantsDistinct(nodes, s.act, s.sub);
    if !mode.OnBehalfOf? {
      SubjectAlone(nodes, s.act, s.sub);
    }
  }

  // ----- where the chain is too deep they need not agree

  predicate SelfCycle(nodes: Nodes, sub: string, node: nat) {
    nodes(node) == Level(Some(sub), Some(node))
  }

  lemma {:induction false} CycleNeverEnds(nodes: Nodes, sub: string, node: nat, depth: nat)
    requires SelfCycle(nodes, sub, node)
    ensures At(nodes, Some(node), depth) == Some(node)
  {
    if depth > 0 {
      CycleNeverEnds(nodes, sub, node, depth - 1);
    }
  }

  /** A subject acting for itself in a cycle counts as delegation, and nobody else takes part. */
  lemma SelfCycleDelegates(nodes: Nodes, sub: string, node: nat)
    requires SelfCycle(nodes, sub, node) && sub != ""
    ensures TooDeep(nodes, Some(node)) && Participants(nodes, Some(node), sub) == [sub]
  {
    forall depth: nat ensures At(nodes, Some(node), depth) == Some(node) {
      CycleNeverEnds(nodes, sub, node, depth);
    }
    SubjectAlone(nodes, Some(node), sub);
  }
}
