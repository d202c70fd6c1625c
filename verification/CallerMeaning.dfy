/** Whom calls and macro uses are attributed to, in terms of the fields of the facts. */
module CallerMeaning {
  import opened CStrings
  import opened Facts
  import opened Attribution

  /** The earliest of the facts that `holds`, of those with the least length below `sizeMax`. */
  predicate IsTightest(facts: seq<Fact>, holds: Fact -> bool, sizeMax: nat, k: nat) {
    && k < |facts| && holds(facts[k]) && facts[k].end - facts[k].start < sizeMax
    && (forall j :: 0 <= j < k && holds(facts[j]) ==>
          facts[k].end - facts[k].start < facts[j].end - facts[j].start)
    && (forall j :: k < j < |facts| && holds(facts[j]) ==>
          facts[k].end - facts[k].start <= facts[j].end - facts[j].start)
  }

  lemma TightestIff(facts: seq<Fact>, encloses: Fact -> bool, holds: Fact -> bool, sizeMax: nat, k: nat)
    requires forall f :: f in facts ==> encloses(f) == holds(f)
    ensures Narrowest(facts, encloses, sizeMax, |facts|) == Some(k) <==> IsTightest(facts, holds, sizeMax, k)
  {
    NarrowestIsEarliestMinimal(facts, encloses, sizeMax, |facts|);
    var found := Narrowest(facts, encloses, sizeMax, |facts|);
    hide Narrowest;
    assert forall j :: 0 <= j < |facts| ==> encloses(facts[j]) == holds(facts[j]);
    if found.Some? {
      assert encloses(facts[found.value]);
    }
  }

  // Calls.

  /** The definitions of functions of the file whose text has the offset. */
  function DefinitionsAt(path: Text, offset: nat): Fact -> bool {
    (f: Fact) => f.kind == Function && f.isDefinition && f.path == path && f.start <= offset && offset < f.end
  }

  /** The caller of a call is the one it names, else the tightest definition at its start, else unknown. */
  lemma CallerIff(facts: seq<Fact>, call: Fact, sizeMax: nat)
    ensures var caller, at := SemanticCaller(facts, call, sizeMax), DefinitionsAt(call.path, call.start);
      && (call.callerUsr != [] ==> caller == call.callerUsr)
      && (call.callerUsr == [] ==>
            (forall k: nat :: IsTightest(facts, at, sizeMax, k) ==> caller == facts[k].usr)
            && (caller != [] ==> exists k: nat :: IsTightest(facts, at, sizeMax, k)))
  {
    hide Narrowest, IsTightest;
    var around, at := Around(call.path, call.start), DefinitionsAt(call.path, call.start);
    forall k: nat
      ensures Narrowest(facts, around, sizeMax, |facts|) == Some(k) <==> IsTightest(facts, at, sizeMax, k)
    {
      TightestIff(facts, around, at, sizeMax, k);
    }
  }

  // Macro uses.

  /** The first call of a known caller whose text contains the use. */
  predicate IsFirstCallAround(facts: seq<Fact>, use: Fact, k: nat) {
    k < |facts| && IsCallAround(facts[k], use) && forall j :: 0 <= j < k ==> !IsCallAround(facts[j], use)
  }

  predicate IsCallAround(call: Fact, use: Fact) {
    && call.kind == Call && call.path == use.path && call.callerUsr != []
    && call.start <= use.start && use.end <= call.end
  }

  /** The definitions of functions whose text contains the use; a use that ends before it starts is in none. */
  function DefinitionsAround(use: Fact): Fact -> bool {
    (f: Fact) =>
      f.kind == Function && f.isDefinition && f.path == use.path && f.start <= use.start <= use.end <= f.end
  }

  /** The first call around the use, or none where there is none. */
  ghost predicate IsCallFor(facts: seq<Fact>, use: Fact, call: Option<Fact>) {
    if call.Some? then exists k: nat :: IsFirstCallAround(facts, use, k) && facts[k] == call.value
    else forall k: nat :: !IsFirstCallAround(facts, use, k)
  }

  /** The tightest definition around the use, or none where there is none. */
  ghost predicate IsDefinitionFor(facts: seq<Fact>, use: Fact, sizeMax: nat, definition: Option<Fact>) {
    if definition.Some?
    then exists k: nat :: IsTightest(facts, DefinitionsAround(use), sizeMax, k) && facts[k] == definition.value
    else forall k: nat :: !IsTightest(facts, DefinitionsAround(use), sizeMax, k)
  }

  /** The use takes the caller from `call`, or where that has no name from `definition`; nothing else changes. */
  predicate Takes(after: Fact, use: Fact, call: Option<Fact>, definition: Option<Fact>) {
    && after == use.(caller := after.caller, callerUsr := after.callerUsr)
    && if call.Some? && call.value.caller != [] then
        after.caller == call.value.caller && after.callerUsr == call.value.callerUsr
      else if definition.Some? then
        after.caller == definition.value.name && after.callerUsr == definition.value.usr
      else
        after.caller == [] && after.callerUsr == if call.Some? then call.value.callerUsr else use.callerUsr
  }

  /** Uses without a caller take theirs so; all other facts stay. */
  lemma AttributedTells(facts: seq<Fact>, fact: Fact, sizeMax: nat)
    returns (call: Option<Fact>, definition: Option<Fact>)
    ensures IsCallFor(facts, fact, call) && IsDefinitionFor(facts, fact, sizeMax, definition)
    ensures var after := Attributed(facts, fact, sizeMax);
      if fact.kind == Macro && !fact.isDefinition && fact.caller == [] then Takes(after, fact, call, definition)
      else after == fact
  {
    var k := FirstWrapping(facts, fact);
    var found := Narrowest(facts, Containing(fact), sizeMax, |facts|);
    call := if k < |facts| then Some(facts[k]) else None;
    definition := if found.Some? then Some(facts[found.value]) else None;
    CallChosen(facts, fact, call);
    DefinitionChosen(facts, fact, sizeMax, definition);
    hide Narrowest, FirstWrapping, Containing, IsCallFor, IsDefinitionFor;
  }

  lemma CallChosen(facts: seq<Fact>, use: Fact, call: Option<Fact>)
    requires var k := FirstWrapping(facts, use); call == if k < |facts| then Some(facts[k]) else None
    ensures IsCallFor(facts, use, call)
  {
    WrappingIff(facts, use);
    hide FirstWrapping, IsFirstCallAround;
  }

  lemma DefinitionChosen(facts: seq<Fact>, use: Fact, sizeMax: nat, definition: Option<Fact>)
    requires var found := Narrowest(facts, Containing(use), sizeMax, |facts|);
      definition == if found.Some? then Some(facts[found.value]) else None
    ensures IsDefinitionFor(facts, use, sizeMax, definition)
  {
    ContainingIff(facts, use, sizeMax);
    hide Narrowest, IsTightest, Containing, DefinitionsAround;
  }

  lemma WrappingIff(facts: seq<Fact>, use: Fact)
    ensures forall k: nat :: IsFirstCallAround(facts, use, k) <==> k < |facts| && k == FirstWrapping(facts, use)
  {
    var first := FirstWrapping(facts, use);
    forall j | 0 <= j < |facts|
      ensures IsCallAround(facts[j], use) <==> Wraps(facts[j], use)
    {
    }
    hide FirstWrapping, IsCallAround, Wraps;
  }

  lemma ContainingIff(facts: seq<Fact>, use: Fact, sizeMax: nat)
    ensures forall k: nat ::
      IsTightest(facts, DefinitionsAround(use), sizeMax, k) <==>
        Narrowest(facts, Containing(use), sizeMax, |facts|) == Some(k)
  {
    forall k: nat
      ensures IsTightest(facts, DefinitionsAround(use), sizeMax, k) <==>
        Narrowest(facts, Containing(use), sizeMax, |facts|) == Some(k)
    {
      TightestIff(facts, Containing(use), DefinitionsAround(use), sizeMax, k);
    }
  }
}
