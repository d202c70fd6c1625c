/** Which function a fact belongs to when Clang does not say: the narrowest definition around it. */
module Attribution {
  import opened CStrings
  import opened Facts

  function Span(fact: Fact): int { fact.end - fact.start }

  /** The choice of the loops: the first fact of least span below `sizeMax` among the first `n` that enclose. */
  function Narrowest(facts: seq<Fact>, encloses: Fact -> bool, sizeMax: nat, n: nat): (found: Option<nat>)
    requires n <= |facts|
    ensures found.Some? ==> found.value < n && encloses(facts[found.value]) && Span(facts[found.value]) < sizeMax
  {
    if n == 0 then None
    else
      var before := Narrowest(facts, encloses, sizeMax, n - 1);
      var least := if before.Some? then Span(facts[before.value]) else sizeMax;
      if encloses(facts[n - 1]) && Span(facts[n - 1]) < least then Some(n - 1) else before
  }

  /** The earliest of minimal span: everything enclosing is at least as wide, and wider if it comes before. */
  lemma {:induction false} NarrowestIsEarliestMinimal(facts: seq<Fact>, encloses: Fact -> bool, sizeMax: nat, n: nat)
    requires n <= |facts|
    ensures var found := Narrowest(facts, encloses, sizeMax, n);
      forall j :: 0 <= j < n && encloses(facts[j]) ==>
        if found.None? then Span(facts[j]) >= sizeMax
        else if j < found.value then Span(facts[j]) > Span(facts[found.value])
        else Span(facts[j]) >= Span(facts[found.value])
  {
    if n > 0 {
      NarrowestIsEarliestMinimal(facts, encloses, sizeMax, n - 1);
    }
  }

  method FindNarrowest(facts: seq<Fact>, encloses: Fact -> bool, sizeMax: nat) returns (found: Option<nat>)
    ensures found == Narrowest(facts, encloses, sizeMax, |facts|)
  {
    found := None;
    var narrowestSpan := sizeMax;
    for index := 0 to |facts|
      invariant found == Narrowest(facts, encloses, sizeMax, index)
      invariant narrowestSpan == if found.Some? then Span(facts[found.value]) else sizeMax
    {
      var candidate := facts[index];
      if !encloses(candidate) {
        continue;
      }
      var span := candidate.end - candidate.start;
      if span < narrowestSpan {
        found, narrowestSpan := Some(index), span;
      }
    }
  }

  // The caller of a call.

  predicate IsAround(definition: Fact, path: Text, offset: nat) {
    IsFunctionDefinition(definition) && definition.end >= definition.start && Covers(definition, path, offset)
  }

  function Around(path: Text, offset: nat): Fact -> bool { (f: Fact) => IsAround(f, path, offset) }

  function SemanticCaller(facts: seq<Fact>, call: Fact, sizeMax: nat): Text {
    if call.callerUsr != [] then call.callerUsr
    else
      var found := Narrowest(facts, Around(call.path, call.start), sizeMax, |facts|);
      if found.Some? then facts[found.value].usr else []
  }

  method SemanticCallerUsr(facts: seq<Fact>, call: Fact, sizeMax: nat) returns (callerUsr: Text)
    ensures callerUsr == SemanticCaller(facts, call, sizeMax)
  {
    callerUsr := call.callerUsr;
    if callerUsr == [] {
      var found := FindNarrowest(facts, Around(call.path, call.start), sizeMax);
      if found.Some? {
        callerUsr := facts[found.value].usr;
      }
    }
  }

  /** Definitions of one file are apart or one inside the other. */
  ghost predicate ProperlyNested(facts: seq<Fact>) {
    forall i, j :: 0 <= i < |facts| && 0 <= j < |facts| && AreOfOneFile(facts[i], facts[j]) ==>
      AreApart(facts[i], facts[j]) || Inside(facts[i], facts[j]) || Inside(facts[j], facts[i])
  }

  predicate AreOfOneFile(a: Fact, b: Fact) {
    IsFunctionDefinition(a) && IsFunctionDefinition(b) && a.path == b.path
  }

  predicate AreApart(a: Fact, b: Fact) { a.end <= b.start || b.end <= a.start }

  predicate Inside(inner: Fact, outer: Fact) { outer.start <= inner.start && inner.end <= outer.end }

  /** With nesting the narrowest definition is the innermost one. */
  lemma NarrowestIsInnermost(facts: seq<Fact>, path: Text, offset: nat, sizeMax: nat, j: nat)
    requires ProperlyNested(facts)
    requires j < |facts| && IsAround(facts[j], path, offset)
    ensures var found := Narrowest(facts, Around(path, offset), sizeMax, |facts|);
      found.Some? ==> Inside(facts[found.value], facts[j])
  {
    NarrowestIsEarliestMinimal(facts, Around(path, offset), sizeMax, |facts|);
    var found := Narrowest(facts, Around(path, offset), sizeMax, |facts|);
    if found.Some? {
      var k := found.value;
      assert IsAround(facts[k], path, offset);
      assert Around(path, offset)(facts[j]);
      assert Inside(facts[k], facts[j]) || Inside(facts[j], facts[k]);
    }
  }

  /** Without an enclosing definition the caller stays unknown; with one narrower than `sizeMax` it is that of the
      chosen definition. */
  lemma SemanticCallerUnknown(facts: seq<Fact>, call: Fact, sizeMax: nat)
    requires call.callerUsr == []
    ensures Narrowest(facts, Around(call.path, call.start), sizeMax, |facts|).None? <==>
      forall j :: 0 <= j < |facts| && IsAround(facts[j], call.path, call.start) ==> Span(facts[j]) >= sizeMax
  {
    NarrowestIsEarliestMinimal(facts, Around(call.path, call.start), sizeMax, |facts|);
    var found := Narrowest(facts, Around(call.path, call.start), sizeMax, |facts|);
    if found.None? {
      forall j | 0 <= j < |facts| && IsAround(facts[j], call.path, call.start)
        ensures Span(facts[j]) >= sizeMax
      {
        assert Around(call.path, call.start)(facts[j]);
      }
    }
  }

  // The callers of macro uses.

  /** A macro use that no caller is known for. */
  predicate IsOpenUse(fact: Fact) { fact.kind == Macro && !fact.isDefinition && fact.caller == [] }

  /** A call with a known caller that the macro lowered to. */
  predicate Wraps(call: Fact, use: Fact) {
    call.kind == Call && call.callerUsr != [] && call.start <= use.start && call.end >= use.end && call.path == use.path
  }

  function Containing(use: Fact): Fact -> bool {
    (f: Fact) =>
      IsFunctionDefinition(f) && f.end >= f.start && use.end >= use.start && f.path == use.path && Inside(use, f)
  }

  function FirstWrapping(facts: seq<Fact>, use: Fact, from: nat := 0): (found: nat)
    requires from <= |facts|
    ensures from <= found <= |facts|
    ensures found < |facts| ==> Wraps(facts[found], use)
    ensures forall k :: from <= k < found ==> !Wraps(facts[k], use)
    decreases |facts| - from
  {
    if from == |facts| || Wraps(facts[from], use) then from else FirstWrapping(facts, use, from + 1)
  }

  /** A wrapping call comes first; its caller may lack a name, and then the containing definition still decides. */
  function Named(facts: seq<Fact>, use: Fact, call: nat, definition: Option<nat>): Fact
    requires definition.Some? ==> definition.value < |facts|
  {
    var named := if call < |facts| then use.(caller := facts[call].caller, callerUsr := facts[call].callerUsr) else use;
    if named.caller == [] && definition.Some?
    then named.(caller := facts[definition.value].name, callerUsr := facts[definition.value].usr)
    else named
  }

  function Attributed(facts: seq<Fact>, fact: Fact, sizeMax: nat): Fact {
    if IsOpenUse(fact)
    then Named(facts, fact, FirstWrapping(facts, fact), Narrowest(facts, Containing(fact), sizeMax, |facts|))
    else fact
  }

  /** Only macro facts may differ, and nothing that attribution reads is a macro fact. */
  ghost predicate SameButMacros(facts: seq<Fact>, other: seq<Fact>) {
    && |facts| == |other|
    && forall i :: 0 <= i < |facts| ==> facts[i] == other[i] || facts[i].kind == other[i].kind == Macro
  }

  lemma {:induction false} SameFirstWrapping(facts: seq<Fact>, other: seq<Fact>, use: Fact, from: nat)
    requires SameButMacros(facts, other) && from <= |facts|
    ensures FirstWrapping(facts, use, from) == FirstWrapping(other, use, from)
    decreases |facts| - from
  {
    if from < |facts| {
      SameFirstWrapping(facts, other, use, from + 1);
    }
  }

  lemma {:induction false} SameNarrowest(facts: seq<Fact>, other: seq<Fact>, use: Fact, sizeMax: nat, n: nat)
    requires SameButMacros(facts, other) && n <= |facts|
    ensures Narrowest(facts, Containing(use), sizeMax, n) == Narrowest(other, Containing(use), sizeMax, n)
  {
    if n > 0 {
      SameNarrowest(facts, other, use, sizeMax, n - 1);
    }
  }

  lemma SameAttributed(facts: seq<Fact>, other: seq<Fact>, fact: Fact, sizeMax: nat)
    requires SameButMacros(facts, other)
    ensures Attributed(facts, fact, sizeMax) == Attributed(other, fact, sizeMax)
  {
    SameFirstWrapping(facts, other, fact, 0);
    SameNarrowest(facts, other, fact, sizeMax, |facts|);
  }

  method AssignMacroCallers(facts: array<Fact>, sizeMax: nat)
    modifies facts
    ensures forall i :: 0 <= i < facts.Length ==> facts[i] == Attributed(old(facts[..]), old(facts[i]), sizeMax)
  {
    hide FirstWrapping, Narrowest, Containing;
    for macroIndex := 0 to facts.Length
      invariant forall i :: 0 <= i < macroIndex ==> facts[i] == Attributed(old(facts[..]), old(facts[i]), sizeMax)
      invariant forall i :: macroIndex <= i < facts.Length ==> facts[i] == old(facts[i])
    {
      SameAttributed(facts[..], old(facts[..]), facts[macroIndex], sizeMax);
      facts[macroIndex] := AttributeMacro(facts[..], facts[macroIndex], sizeMax);
    }
  }

  /** One turn of the outer loop. */
  method AttributeMacro(facts: seq<Fact>, use: Fact, sizeMax: nat) returns (attributed: Fact)
    ensures attributed == Attributed(facts, use, sizeMax)
  {
    attributed := use;
    if use.kind != Macro || use.isDefinition || use.caller != [] {
      return;
    }
    for index := 0 to |facts|
      invariant attributed == use && FirstWrapping(facts, use) == FirstWrapping(facts, use, index)
    {
      if Wraps(facts[index], use) {
        attributed := use.(caller := facts[index].caller, callerUsr := facts[index].callerUsr);
        break;
      }
    }
    if attributed.caller != [] {
      return;
    }
    var found := FindNarrowest(facts, Containing(use), sizeMax);
    if found.Some? {
      attributed := attributed.(caller := facts[found.value].name, callerUsr := facts[found.value].usr);
    }
  }

  /** Assigning callers a second time changes nothing. */
  lemma AttributionIsIdempotent(facts: seq<Fact>, after: seq<Fact>, sizeMax: nat)
    requires |after| == |facts| && forall i :: 0 <= i < |facts| ==> after[i] == Attributed(facts, facts[i], sizeMax)
    ensures forall i :: 0 <= i < |facts| ==> Attributed(after, after[i], sizeMax) == after[i]
  {
    hide Narrowest, FirstWrapping;
    forall i | 0 <= i < |facts|
      ensures Attributed(after, after[i], sizeMax) == after[i]
    {
      AttributedTwice(facts, facts[i], sizeMax);
      hide Attributed;
      SameAttributed(facts, after, after[i], sizeMax);
    }
  }

  lemma AttributedTwice(facts: seq<Fact>, fact: Fact, sizeMax: nat)
    ensures var once := Attributed(facts, fact, sizeMax); Attributed(facts, once, sizeMax) == once
  {
    hide Narrowest, FirstWrapping, Containing, IsOpenUse;
    var call, definition := FirstWrapping(facts, fact), Narrowest(facts, Containing(fact), sizeMax, |facts|);
    NamedTwice(facts, fact, call, definition);
    var once := Named(facts, fact, call, definition);
    SameUse(facts, fact, once, 0);
    SameRange(facts, fact, once, sizeMax, |facts|);
  }

  lemma NamedTwice(facts: seq<Fact>, use: Fact, call: nat, definition: Option<nat>)
    requires definition.Some? ==> definition.value < |facts|
    ensures var once := Named(facts, use, call, definition);
      && once.path == use.path && once.start == use.start && once.end == use.end
      && Named(facts, once, call, definition) == once
  {
    var named := if call < |facts| then use.(caller := facts[call].caller, callerUsr := facts[call].callerUsr) else use;
    if named.caller == [] && definition.Some? {
      var once := named.(caller := facts[definition.value].name, callerUsr := facts[definition.value].usr);
      assert Named(facts, use, call, definition) == once;
      if call < |facts| {
        assert once.(caller := facts[call].caller, callerUsr := facts[call].callerUsr) == named;
      }
    } else {
      assert Named(facts, use, call, definition) == named;
    }
  }

  lemma {:induction false} SameUse(facts: seq<Fact>, use: Fact, other: Fact, from: nat)
    requires from <= |facts| && use.path == other.path && use.start == other.start && use.end == other.end
    ensures FirstWrapping(facts, use, from) == FirstWrapping(facts, other, from)
    decreases |facts| - from
  {
    if from < |facts| {
      SameUse(facts, use, other, from + 1);
    }
  }

  lemma {:induction false} SameRange(facts: seq<Fact>, use: Fact, other: Fact, sizeMax: nat, n: nat)
    requires n <= |facts| && use.path == other.path && use.start == other.start && use.end == other.end
    ensures Narrowest(facts, Containing(use), sizeMax, n) == Narrowest(facts, Containing(other), sizeMax, n)
  {
    if n > 0 {
      SameRange(facts, use, other, sizeMax, n - 1);
    }
  }
}
