/** What the judge reports and lets pass, in terms of the fields of facts, rules and inventory entries. */
module JudgeMeaning {
  import opened CStrings
  import opened Facts
  import opened Attribution
  import opened Judge

  // The callee.

  /** `usr` stands for `native`: itself, unless it is a lowered builtin. */
  predicate Means(policy: Policy, usr: Text, native: Text) {
    if usr in policy.canonical then policy.canonical[usr] == native else usr == native
  }

  /** The entry is for the fact: by a nonempty identity, or by the nonempty name of a macro. */
  predicate Knows(entry: Inventory, policy: Policy, fact: Fact) {
    (entry.originalUsr != [] && Means(policy, fact.usr, entry.originalUsr))
    || (fact.kind == Macro && fact.name != [] && entry.original == fact.name)
  }

  lemma KnowsIff(entry: Inventory, policy: Policy, fact: Fact)
    ensures IsWrapperFor(entry, policy, fact) <==> Knows(entry, policy, fact)
  {
  }

  /** The first entry of the inventory that knows the fact. */
  predicate IsEntryOf(inventory: seq<Inventory>, policy: Policy, fact: Fact, k: nat) {
    && k < |inventory| && Knows(inventory[k], policy, fact)
    && forall j :: 0 <= j < k ==> !Knows(inventory[j], policy, fact)
  }

  /** The search finds this entry, and nothing only if no entry knows the fact. */
  lemma {:induction false} FoundIff(
    inventory: seq<Inventory>, policy: Policy, fact: Fact, entry: Option<Inventory>, from: nat)
    requires from <= |inventory|
    requires forall j :: 0 <= j < from ==> !Knows(inventory[j], policy, fact)
    ensures FindWrapper(inventory, policy, fact, from) == entry <==>
      if entry.Some? then exists k: nat :: IsEntryOf(inventory, policy, fact, k) && inventory[k] == entry.value
      else forall e :: e in inventory ==> !Knows(e, policy, fact)
    decreases |inventory| - from
  {
    hide IsWrapperFor, Knows;
    if from < |inventory| {
      KnowsIff(inventory[from], policy, fact);
      if Knows(inventory[from], policy, fact) {
        assert IsEntryOf(inventory, policy, fact, from);
      } else {
        FoundIff(inventory, policy, fact, entry, from + 1);
      }
    }
  }

  // The identity that rules are matched against.

  /** That of a call is the native one. */
  lemma IdentityOfFunction(policy: Policy, fact: Fact, entry: Option<Inventory>, native: Text)
    requires Means(policy, fact.usr, native) && fact.kind != Macro
    requires forall k: nat :: !OccursAt(native, "@T@", k)
    ensures CalleeIdentity(policy, fact, entry) == native
  {
  }

  /** That of a type drops what stands before the first marker. */
  lemma IdentityOfType(policy: Policy, fact: Fact, entry: Option<Inventory>, native: Text, at: nat)
    requires Means(policy, fact.usr, native) && fact.kind != Macro
    requires OccursAt(native, "@T@", at) && forall k: nat :: k < at ==> !OccursAt(native, "@T@", k)
    ensures var identity := CalleeIdentity(policy, fact, entry);
      && identity <= "c:" + native[at..]
      && if 2 + |native| - at <= 255 then identity == "c:" + native[at..] else |identity| == 255
  {
    assert Find(native, TYPE_MARKER) == Some(at);
  }

  /** A macro has that of its entry, or else its own, or else one made of its name. */
  lemma IdentityOfMacro(policy: Policy, fact: Fact, entry: Option<Inventory>, native: Text)
    requires Means(policy, fact.usr, native) && fact.kind == Macro
    ensures var identity := CalleeIdentity(policy, fact, entry);
      && (entry.Some? && entry.value.originalUsr != [] ==> identity == entry.value.originalUsr)
      && ((entry.None? || entry.value.originalUsr == []) && native == [] ==>
        && identity <= "macro:" + fact.name
        && if |fact.name| <= 249 then |identity| == 6 + |fact.name| else |identity| == 255)
      && ((entry.None? || entry.value.originalUsr == []) && native != [] ==>
        CalleeIdentity(policy, fact, entry) == CalleeIdentity(policy, fact.(kind := Call), None))
  {
  }

  // What is allowed.

  /** The rule is for the fact's caller or for any, for the callee, and its pattern matches the path or what follows one
      of its slashes. */
  predicate RuleFits(policy: Policy, rule: AllowRule, fact: Fact, identity: Text) {
    && (rule.callerUsr != [] ==> fact.callerUsr == rule.callerUsr)
    && identity == rule.calleeUsr
    && (policy.matches(rule.path, fact.path)
        || exists at :: 0 < at <= |fact.path| && fact.path[at - 1] == '/' && policy.matches(rule.path, fact.path[at..]))
  }

  lemma RuleFitsIff(policy: Policy, rule: AllowRule, fact: Fact, identity: Text)
    ensures RuleApplies(policy, rule, fact, identity) <==> RuleFits(policy, rule, fact, identity)
  {
    if k :| 0 <= k < |fact.path| && fact.path[k] == '/' && policy.matches(rule.path, fact.path[k + 1..]) {
      assert 0 < k + 1 <= |fact.path| && fact.path[k + 1 - 1] == '/';
    }
    if at :| 0 < at <= |fact.path| && fact.path[at - 1] == '/' && policy.matches(rule.path, fact.path[at..]) {
      var k := at - 1;
      assert 0 <= k < |fact.path| && fact.path[k] == '/' && policy.matches(rule.path, fact.path[k + 1..]);
    }
  }

  /** Allowed without a rule: the caller is the wrapper of the entry, or the identity is allowed everywhere. */
  predicate NeedsNoRule(policy: Policy, fact: Fact, entry: Option<Inventory>, identity: Text) {
    (entry.Some? && entry.value.wrapperUsr != [] && fact.callerUsr == entry.value.wrapperUsr)
    || exists k :: 0 <= k < |policy.allowedUsrs| && policy.allowedUsrs[k] == identity
  }

  lemma AllowedIff(policy: Policy, fact: Fact, entry: Option<Inventory>)
    ensures var identity := CalleeIdentity(policy, fact, entry);
      IsAllowed(policy, fact, entry) <==>
        || NeedsNoRule(policy, fact, entry, identity)
        || exists rule :: rule in policy.rules && RuleFits(policy, rule, fact, identity)
  {
    hide CalleeIdentity, RuleApplies, RuleFits;
    var identity := CalleeIdentity(policy, fact, entry);
    if rule :| rule in policy.rules && RuleFits(policy, rule, fact, identity) {
      var k :| 0 <= k < |policy.rules| && policy.rules[k] == rule;
      RuleFitsIff(policy, policy.rules[k], fact, identity);
    }
    var first := FirstRule(policy, fact, identity);
    if first < |policy.rules| {
      RuleFitsIff(policy, policy.rules[first], fact, identity);
      assert policy.rules[first] in policy.rules;
    }
  }

  /** The rule that is counted as used is the first that fits, when one is needed. */
  lemma RuleUsedIff(policy: Policy, fact: Fact, entry: Option<Inventory>, i: nat)
    ensures var identity := CalleeIdentity(policy, fact, entry);
      RuleUsed(policy, fact, entry) == Some(i) <==>
        && !NeedsNoRule(policy, fact, entry, identity)
        && i < |policy.rules| && RuleFits(policy, policy.rules[i], fact, identity)
        && forall k :: 0 <= k < i ==> !RuleFits(policy, policy.rules[k], fact, identity)
  {
    hide CalleeIdentity, RuleApplies, RuleFits;
    var identity := CalleeIdentity(policy, fact, entry);
    forall rule | rule in policy.rules
      ensures RuleApplies(policy, rule, fact, identity) <==> RuleFits(policy, rule, fact, identity)
    {
      RuleFitsIff(policy, rule, fact, identity);
    }
  }

  // What is reported.

  predicate IsPlatformSpecific(policy: Policy, fact: Fact) {
    && policy.checkPortability && fact.kind == Include
    && (if fact.resolved == [] then policy.isPlatformHeader(fact.name) else policy.isPlatformHeader(fact.resolved))
  }

  /** A named call, or use of a macro by a known caller, that crosses the boundary: it calls no wrapper, nothing the
      project defines, and is no part of `errno`. */
  predicate Crosses(facts: seq<Fact>, inventory: seq<Inventory>, policy: Policy, fact: Fact) {
    && fact.name != []
    && (fact.kind == Call
        || (fact.kind == Macro && !fact.isDefinition && SemanticCaller(facts, fact, policy.sizeMax) != []
            && exists entry :: entry in inventory && Knows(entry, policy, fact)))
    && (forall entry :: entry in inventory && fact.kind == Call && entry.wrapperUsr == fact.usr ==> fact.usr == [])
    && (forall f :: f in facts && f.kind == Function && f.isDefinition && f.usr == fact.usr ==> fact.usr == [])
    && (forall m :: m in facts && UsesErrnoWith(m, fact) ==> fact.usr !in policy.errnoProviders)
  }

  predicate UsesErrnoWith(m: Fact, fact: Fact) {
    && m.name == "errno" && m.kind == Macro && !m.isDefinition
    && m.path == fact.path && m.line == fact.line && m.callerUsr == fact.callerUsr
  }

  lemma CrossesIff(facts: seq<Fact>, inventory: seq<Inventory>, policy: Policy, fact: Fact)
    ensures IsAsked(facts, inventory, policy, fact) <==> Crosses(facts, inventory, policy, fact)
  {
    hide FindWrapper, Knows, SemanticCaller;
    FoundIff(inventory, policy, fact, None, 0);
    if IsAsked(facts, inventory, policy, fact) {
      forall m | m in facts && UsesErrnoWith(m, fact)
        ensures fact.usr !in policy.errnoProviders
      {
        assert IsErrnoUse(m, fact);
      }
    }
  }

  /** A use of a macro in the same function and inside the call, whose own entry is allowed. */
  ghost predicate ExcusedBy(inventory: seq<Inventory>, policy: Policy, fact: Fact, macro: Fact) {
    && macro.kind == Macro && !macro.isDefinition && macro.path == fact.path && macro.callerUsr == fact.callerUsr
    && fact.start <= macro.start && macro.end <= fact.end
    && exists k: nat ::
      IsEntryOf(inventory, policy, macro, k) && IsAllowed(policy, macro, Some(inventory[k]))
  }

  lemma ExcusedIff(inventory: seq<Inventory>, policy: Policy, fact: Fact, macro: Fact)
    ensures IsAllowedMacroOf(inventory, policy, macro, fact) <==> ExcusedBy(inventory, policy, fact, macro)
  {
    hide FindWrapper, Knows, IsAllowed;
    var entry := FindWrapper(inventory, policy, macro);
    FoundIff(inventory, policy, macro, entry, 0);
    forall k: nat | IsEntryOf(inventory, policy, macro, k)
      ensures entry == Some(inventory[k])
    {
      FoundIff(inventory, policy, macro, Some(inventory[k]), 0);
    }
  }

  /** The caller implements the callee: it is the wrapper of the entry of a direct fact, or is known to be lowered. */
  predicate Implements(caller: Text, policy: Policy, fact: Fact, entry: Option<Inventory>) {
    (!fact.isIndirect && entry.Some? && caller != [] && caller == entry.value.wrapperUsr)
    || (fact.usr, caller) in policy.lowered
  }

  /** The facts that are findings. */
  lemma RejectedIff(facts: seq<Fact>, inventory: seq<Inventory>, policy: Policy, fact: Fact, entry: Option<Inventory>)
    requires FindWrapper(inventory, policy, fact) == entry
    ensures IsRejected(facts, inventory, policy, fact) <==>
      IsPlatformSpecific(policy, fact)
      || (&& Crosses(facts, inventory, policy, fact)
          && !IsAllowed(policy, fact, entry)
          && (forall macro :: macro in facts ==> !ExcusedBy(inventory, policy, fact, macro))
          && !Implements(SemanticCaller(facts, fact, policy.sizeMax), policy, fact, entry))
  {
    hide FindWrapper, IsAllowed, IsAllowedMacroOf, ExcusedBy, SemanticCaller, IsAsked, Crosses;
    CrossesIff(facts, inventory, policy, fact);
    var first := FirstAllowedMacro(facts, inventory, policy, fact);
    forall macro | macro in facts
      ensures IsAllowedMacroOf(inventory, policy, macro, fact) <==> ExcusedBy(inventory, policy, fact, macro)
    {
      ExcusedIff(inventory, policy, fact, macro);
    }
    if first < |facts| {
      assert facts[first] in facts;
    }
  }

  // What a finding says.

  /** Of the fact that a finding stands for. */
  ghost predicate Tells(finding: Finding, inventory: seq<Inventory>, policy: Policy, fact: Fact) {
    && finding.path == fact.path && finding.line == fact.line && finding.column == fact.column
    && finding.name == fact.name
    && finding.caller == (if fact.caller == [] then "?" else fact.caller)
    && (finding.kind == Portability <==> fact.kind == Include)
    && (finding.kind == Indirect <==> fact.kind != Include && fact.isIndirect)
    && (finding.kind == Missed <==>
        fact.kind != Include && !fact.isIndirect && exists entry :: entry in inventory && Knows(entry, policy, fact))
    && (if finding.kind == Missed
        then exists k: nat :: IsEntryOf(inventory, policy, fact, k) && finding.replacement == inventory[k].wrapper
        else finding.replacement == [])
    && (finding.kind == Portability ==> finding.allowIdentity == [])
  }

  lemma FindingTells(facts: seq<Fact>, inventory: seq<Inventory>, policy: Policy, fact: Fact)
    requires IsRejected(facts, inventory, policy, fact)
    ensures Tells(FindingFor(inventory, policy, fact), inventory, policy, fact)
  {
    hide FindWrapper, CalleeIdentity, Knows, IsAllowed, FirstAllowedMacro, IsImplementation, IsExempt, SemanticCaller;
    var entry := FindWrapper(inventory, policy, fact);
    FoundIff(inventory, policy, fact, entry, 0);
  }

  /** The fact is rejected, and none before it with its path, line, column and name is. */
  ghost predicate IsReportedFact(facts: seq<Fact>, inventory: seq<Inventory>, policy: Policy, k: nat) {
    && k < |facts| && IsRejected(facts, inventory, policy, facts[k])
    && forall j :: 0 <= j < k && AreOnePlace(facts[j], facts[k]) ==> !IsRejected(facts, inventory, policy, facts[j])
  }

  predicate AreOnePlace(a: Fact, b: Fact) {
    a.path == b.path && a.line == b.line && a.column == b.column && a.name == b.name
  }

  /** Every finding tells of such a fact. */
  lemma EveryFindingTells(facts: seq<Fact>, inventory: seq<Inventory>, policy: Policy, finding: Finding)
    requires finding in Findings(facts, inventory, policy, |facts|)
    ensures exists k: nat ::
      IsReportedFact(facts, inventory, policy, k) && Tells(finding, inventory, policy, facts[k])
  {
    hide Findings, Tells, IsRejected, FindingFor;
    EarliestFindingIsKept(facts, inventory, policy, |facts|, finding);
    var k :| 0 <= k < |facts| && IsFirstRejected(facts, inventory, policy, k) &&
      finding == FindingFor(inventory, policy, facts[k]);
    FindingTells(facts, inventory, policy, facts[k]);
    assert IsReportedFact(facts, inventory, policy, k);
  }

  /** And every such fact has its finding. */
  lemma EveryReportedFactIsTold(facts: seq<Fact>, inventory: seq<Inventory>, policy: Policy, k: nat)
    requires IsReportedFact(facts, inventory, policy, k)
    ensures exists finding ::
      finding in Findings(facts, inventory, policy, |facts|) && Tells(finding, inventory, policy, facts[k])
  {
    hide Findings, Tells, IsRejected, FindingFor;
    var finding := FindingFor(inventory, policy, facts[k]);
    EarliestFindingIsKept(facts, inventory, policy, |facts|, finding);
    assert IsFirstRejected(facts, inventory, policy, k);
    FindingTells(facts, inventory, policy, facts[k]);
  }
}
