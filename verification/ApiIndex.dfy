/** The workspace's index of declared APIs: the same table, but a second declaration of an identity is an error, and
    every API is then tied to its definition among the facts. */
module ApiIndex {
  import opened Bits
  import opened CStrings
  import opened Facts
  import opened HashIndex
  import opened Instrumentation

  const API_CAPACITY: nat := 2048

  datatype Api = Api(
    library: Text,
    role: Text,
    name: Text,
    usr: Text,
    source: Text,
    functionFact: nat,
    hasEnv: bool,
    hasError: bool,
    capabilities: Capabilities)

  predicate Distinct(apis: seq<Api>) {
    forall i, j :: 0 <= i < j < |apis| ==> apis[i].usr != apis[j].usr
  }

  /** The declared source is the fact's path or the end of it. */
  predicate EndsWith(path: Text, source: Text) {
    |path| >= |source| && path[|path| - |source|..] == source
  }

  predicate IsDefinitionOf(fact: Fact, api: Api) {
    && IsFunctionDefinition(fact) && fact.isPublic
    && fact.usr != [] && fact.usr == api.usr && EndsWith(fact.path, api.source)
  }

  /** The last definition of `api` among the first `n` facts, or the number of all facts. */
  function LastDefinition(facts: seq<Fact>, api: Api, n: nat): (last: nat)
    requires n <= |facts|
    ensures (last < n && IsDefinitionOf(facts[last], api)) || last == |facts|
    ensures forall k :: 0 <= k < n && (last < |facts| ==> last < k) ==> !IsDefinitionOf(facts[k], api)
  {
    if n == 0 then |facts| else if IsDefinitionOf(facts[n - 1], api) then n - 1 else LastDefinition(facts, api, n - 1)
  }

  function WithFact(api: Api, index: nat, fact: Fact, capabilities: Capabilities): Api {
    api.(functionFact := index, capabilities := capabilities, hasEnv := fact.needsEnv, hasError := fact.needsError)
  }

  /** What `api` becomes: the marker for "no definition", or everything its last definition says. */
  function Assigned(api: Api, facts: seq<Fact>, factCapabilities: seq<Capabilities>, n: nat): Api
    requires n <= |facts| == |factCapabilities|
  {
    var last := LastDefinition(facts, api, n);
    if last == |facts| then api.(functionFact := |facts|) else WithFact(api, last, facts[last], factCapabilities[last])
  }

  function Usrs(apis: seq<Api>): (usrs: seq<Text>)
    ensures |usrs| == |apis| && forall i :: 0 <= i < |apis| ==> usrs[i] == apis[i].usr
  {
    seq(|apis|, i requires 0 <= i < |apis| => apis[i].usr)
  }

  /** The table's entries for the first `n` identities, none of them repeated. */
  ghost predicate AreEntries(entries: map<Text, nat>, usrs: seq<Text>, n: nat)
    requires n <= |usrs|
  {
    && |entries| == n
    && (forall k :: 0 <= k < n ==> usrs[k] in entries && entries[usrs[k]] == k)
    && (forall usr :: usr in entries ==> entries[usr] < n && usrs[entries[usr]] == usr)
  }

  lemma NoEntries(usrs: seq<Text>)
    ensures AreEntries(map[], usrs, 0)
  {
  }

  lemma EntriesGrow(entries: map<Text, nat>, apis: seq<Api>, n: nat)
    requires n < |apis| && AreEntries(entries, Usrs(apis), n)
    ensures if apis[n].usr in entries then !Distinct(apis) else AreEntries(entries[apis[n].usr := n], Usrs(apis), n + 1)
  {
    hide Usrs;
    if apis[n].usr in entries {
      assert apis[entries[apis[n].usr]].usr == apis[n].usr;
    }
  }

  lemma EntriesAreDistinct(entries: map<Text, nat>, apis: seq<Api>)
    requires AreEntries(entries, Usrs(apis), |apis|)
    ensures Distinct(apis)
  {
    hide Usrs;
  }

  method AssignFacts(facts: seq<Fact>, factCapabilities: seq<Capabilities>, apis: array<Api>, width: Width)
    returns (complete: bool)
    requires |factCapabilities| == |facts| && apis.Length <= API_CAPACITY
    modifies apis
    ensures complete == Distinct(old(apis[..]))
    ensures complete ==> forall i :: 0 <= i < apis.Length ==>
      apis[i] == Assigned(old(apis[i]), facts, factCapabilities, |facts|)
    ensures !complete ==> forall i :: 0 <= i < apis.Length ==>
      apis[i] == old(apis[i]).(functionFact := apis[i].functionFact)
  {
    hide *;
    var distinct, slots, entries := IndexApis(apis, |facts|, width);
    complete := distinct;
    if complete {
      AssignAll(facts, factCapabilities, apis, slots, entries, width);
      AssignedFromMarker(old(apis[..]), facts, factCapabilities, apis[..]);
    }
  }

  /** The first loop: it stops at a repeated identity, which is the only way an insertion fails. */
  method IndexApis(apis: array<Api>, missing: nat, width: Width)
    returns (distinct: bool, slots: array<Slot>, ghost entries: map<Text, nat>)
    requires apis.Length <= API_CAPACITY
    modifies apis
    ensures fresh(slots)
    ensures distinct == Distinct(old(apis[..]))
    ensures forall i :: 0 <= i < apis.Length ==>
      apis[i] == old(apis[i]).(functionFact := if distinct then missing else apis[i].functionFact)
    ensures distinct ==> IsCapacity(slots.Length, width) && Represents(slots[..], entries, width)
    ensures distinct ==> AreEntries(entries, Usrs(apis[..]), apis.Length)
  {
    hide Represents, IsCapacity, Distinct, Usrs, AreEntries;
    var capacity := TableSize(apis.Length, width);
    slots := new Slot[capacity](_ => Free);
    EmptyTable(slots[..], width);
    entries := map[];
    NoEntries(Usrs(apis[..]));
    for index := 0 to apis.Length
      invariant |entries| == index
      invariant Represents(slots[..], entries, width) && AreEntries(entries, Usrs(old(apis[..])), index)
      invariant forall i :: 0 <= i < index ==> apis[i] == old(apis[i]).(functionFact := missing)
      invariant forall i :: index <= i < apis.Length ==> apis[i] == old(apis[i])
    {
      EntriesGrow(entries, old(apis[..]), index);
      apis[index] := apis[index].(functionFact := missing);
      var outcome := Insert(slots, apis[index].usr, index, width, entries);
      if outcome != Inserted {
        return false, slots, entries;
      }
      entries := entries[apis[index].usr := index];
    }
    EntriesAreDistinct(entries, old(apis[..]));
    assert Usrs(apis[..]) == Usrs(old(apis[..]));
    distinct := true;
  }

  method TableSize(count: nat, width: Width) returns (capacity: nat)
    requires count <= API_CAPACITY
    ensures IsCapacity(capacity, width) && capacity >= 16 && capacity >= count * 2
  {
    capacity := 16;
    ghost var exponent := 4;
    assert Pow2(4) == 16;
    while capacity < count * 2
      invariant 16 <= capacity <= 2 * count * 2 + 16 && capacity == Pow2(exponent)
    {
      capacity, exponent := capacity * 2, exponent + 1;
    }
  }

  /** The second loop, over the facts. */
  method AssignAll(
    facts: seq<Fact>, factCapabilities: seq<Capabilities>, apis: array<Api>, slots: array<Slot>,
    ghost entries: map<Text, nat>, width: Width)
    requires |factCapabilities| == |facts|
    requires IsCapacity(slots.Length, width) && Represents(slots[..], entries, width)
    requires AreEntries(entries, Usrs(apis[..]), apis.Length)
    requires forall i :: 0 <= i < apis.Length ==> apis[i].functionFact == |facts|
    modifies apis
    ensures forall i :: 0 <= i < apis.Length ==> apis[i] == Assigned(old(apis[i]), facts, factCapabilities, |facts|)
  {
    hide Represents, IsCapacity, EndsWith, LastDefinition, Assigned, Usrs;
    AssignedNone(apis[..], facts, factCapabilities);
    for index := 0 to |facts|
      invariant forall i :: 0 <= i < apis.Length ==> apis[i] == Assigned(old(apis[i]), facts, factCapabilities, index)
    {
      AssignedStep(old(apis[..]), facts, factCapabilities, index);
      AssignedKeeps(old(apis[..]), facts, factCapabilities, index);
      var fact := facts[index];
      if fact.kind != Function || !fact.isDefinition || !fact.isPublic {
        continue;
      }
      var apiIndex := Lookup(slots, fact.usr, apis.Length, width, entries);
      if apiIndex == apis.Length {
        continue;
      }
      var matches := SourceMatches(apis[apiIndex].source, fact.path);
      if matches {
        apis[apiIndex] := WithFact(apis[apiIndex], index, fact, factCapabilities[index]);
      }
    }
  }

  lemma AssignedNone(apis: seq<Api>, facts: seq<Fact>, factCapabilities: seq<Capabilities>)
    requires |facts| == |factCapabilities|
    ensures forall i :: 0 <= i < |apis| ==>
      Assigned(apis[i], facts, factCapabilities, 0) == apis[i].(functionFact := |facts|)
  {
  }

  lemma AssignedStep(apis: seq<Api>, facts: seq<Fact>, factCapabilities: seq<Capabilities>, n: nat)
    requires n < |facts| == |factCapabilities|
    ensures forall i :: 0 <= i < |apis| ==>
      Assigned(apis[i], facts, factCapabilities, n + 1) ==
        if IsDefinitionOf(facts[n], apis[i])
        then WithFact(apis[i], n, facts[n], factCapabilities[n])
        else Assigned(apis[i], facts, factCapabilities, n)
  {
    hide EndsWith;
  }

  predicate KeepsDeclaration(after: Api, before: Api) {
    && after.library == before.library && after.role == before.role && after.name == before.name
    && after.usr == before.usr && after.source == before.source
  }

  lemma AssignedKeeps(apis: seq<Api>, facts: seq<Fact>, factCapabilities: seq<Capabilities>, n: nat)
    requires n <= |facts| == |factCapabilities|
    ensures forall i :: 0 <= i < |apis| ==> KeepsDeclaration(Assigned(apis[i], facts, factCapabilities, n), apis[i])
  {
  }

  method SourceMatches(source: Text, path: Text) returns (matches: bool)
    ensures matches == EndsWith(path, source)
  {
    matches := source == path;
    if !matches {
      if |path| >= |source| {
        var workspaceLength := |path| - |source|;
        matches := path[workspaceLength..] == source;
      }
    }
  }

  lemma AssignedFromMarker(before: seq<Api>, facts: seq<Fact>, factCapabilities: seq<Capabilities>, after: seq<Api>)
    requires |facts| == |factCapabilities| && |before| == |after|
    requires forall i :: 0 <= i < |before| ==>
      after[i] == Assigned(before[i].(functionFact := |facts|), facts, factCapabilities, |facts|)
    ensures forall i :: 0 <= i < |before| ==> after[i] == Assigned(before[i], facts, factCapabilities, |facts|)
  {
  }

  // The same in the fields of facts and declarations.

  /** A public definition of the API, in the declared source or below a folder with it. */
  predicate Implements(fact: Fact, api: Api) {
    && fact.kind == Function && fact.isDefinition && fact.isPublic && api.usr != [] && fact.usr == api.usr
    && exists n :: 0 <= n <= |fact.path| && fact.path[n..] == api.source
  }

  lemma ImplementsIff(fact: Fact, api: Api)
    ensures IsDefinitionOf(fact, api) <==> Implements(fact, api)
  {
  }

  ghost predicate IsLast(facts: seq<Fact>, api: Api, k: nat) {
    && k < |facts| && Implements(facts[k], api)
    && forall j :: k < j < |facts| ==> !Implements(facts[j], api)
  }

  /** Env, error and capabilities are those of the last definition, and without one they stay. */
  lemma AssignedTells(api: Api, facts: seq<Fact>, factCapabilities: seq<Capabilities>)
    requires |factCapabilities| == |facts|
    ensures var after := Assigned(api, facts, factCapabilities, |facts|);
      && KeepsDeclaration(after, api)
      && if exists fact :: fact in facts && Implements(fact, api)
        then
          && IsLast(facts, api, after.functionFact)
          && after.hasEnv == facts[after.functionFact].needsEnv
          && after.hasError == facts[after.functionFact].needsError
          && after.capabilities == factCapabilities[after.functionFact]
        else
          && after.functionFact == |facts| && after.hasEnv == api.hasEnv && after.hasError == api.hasError
          && after.capabilities == api.capabilities
  {
    hide IsDefinitionOf, Implements;
    var last := LastDefinition(facts, api, |facts|);
    forall k | 0 <= k < |facts|
      ensures IsDefinitionOf(facts[k], api) <==> Implements(facts[k], api)
    {
      ImplementsIff(facts[k], api);
    }
    if last < |facts| {
      assert facts[last] in facts;
    }
  }
}
