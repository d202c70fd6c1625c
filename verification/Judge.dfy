/** The wrapper judgement: which facts are findings, and how allow rules silence them. */
module Judge {
  import opened CStrings
  import opened Facts
  import opened Attribution

  const NAME_SIZE: nat := 256

  datatype Inventory = Inventory(original: Text, originalUsr: Text, wrapper: Text, wrapperUsr: Text)

  datatype AllowRule = AllowRule(path: Text, callerUsr: Text, calleeUsr: Text)

  /** What the run is configured with.  `canonical` maps a lowered builtin to its native identity, `lowered` pairs
      native identities with the wrappers they implement, `matches` is `fnmatch`, and `isPlatformHeader` recognizes
      platform-specific includes. */
  datatype Policy = Policy(
    allowedUsrs: seq<Text>,
    rules: seq<AllowRule>,
    checkPortability: bool,
    canonical: map<Text, Text>,
    lowered: set<(Text, Text)>,
    errnoProviders: set<Text>,
    matches: (Text, Text) -> bool,
    isPlatformHeader: Text -> bool,
    sizeMax: nat)

  datatype FindingKind = Missed | External | Indirect | Portability

  datatype Finding = Finding(
    kind: FindingKind,
    path: Text,
    name: Text,
    caller: Text,
    replacement: Text,
    allowIdentity: Text,
    line: nat,
    column: nat)

  /** What makes two findings the same. */
  datatype Key = Key(path: Text, line: nat, column: nat, name: Text)

  function KeyOf(finding: Finding): Key { Key(finding.path, finding.line, finding.column, finding.name) }

  function FactKey(fact: Fact): Key { Key(fact.path, fact.line, fact.column, fact.name) }

  // The callee's identity.

  function Canonical(policy: Policy, usr: Text): Text { if usr in policy.canonical then policy.canonical[usr] else usr }

  predicate IsWrapperFor(candidate: Inventory, policy: Policy, fact: Fact) {
    var callee := Canonical(policy, fact.usr);
    (callee != [] && candidate.originalUsr == callee)
    || (fact.kind == Macro && candidate.original != [] && candidate.original == fact.name)
  }

  /** The first inventory entry for the fact. */
  function FindWrapper(
    inventory: seq<Inventory>, policy: Policy, fact: Fact, from: nat := 0): (wrapper: Option<Inventory>)
    requires from <= |inventory|
    ensures wrapper.Some? ==> IsWrapperFor(wrapper.value, policy, fact)
    ensures wrapper.None? ==> forall k :: from <= k < |inventory| ==> !IsWrapperFor(inventory[k], policy, fact)
    decreases |inventory| - from
  {
    if from == |inventory| then None
    else if IsWrapperFor(inventory[from], policy, fact) then Some(inventory[from])
    else FindWrapper(inventory, policy, fact, from + 1)
  }

  /** `snprintf` into the identity buffer truncates. */
  function Printed(text: Text): Text { if |text| < NAME_SIZE then text else text[..NAME_SIZE - 1] }

  const TYPE_MARKER: Text := "@T@"
  const TYPE_PREFIX: Text := "c:"
  const MACRO_PREFIX: Text := "macro:"

  function CalleeIdentity(policy: Policy, fact: Fact, wrapper: Option<Inventory>): Text {
    var native := Canonical(policy, fact.usr);
    var marker := Find(native, TYPE_MARKER);
    var identity := if marker.Some? then Printed(TYPE_PREFIX + native[marker.value..]) else native;
    var fromEntry := fact.kind == Macro && wrapper.Some? && wrapper.value.originalUsr != [];
    var known := if fromEntry then wrapper.value.originalUsr else identity;
    if known == [] && fact.kind == Macro then Printed(MACRO_PREFIX + fact.name) else known
  }

  // What is allowed.

  /** `fnmatch` on the path or on what follows one of its slashes. */
  predicate PathMatches(policy: Policy, pattern: Text, path: Text) {
    || policy.matches(pattern, path)
    || exists k :: 0 <= k < |path| && path[k] == '/' && policy.matches(pattern, path[k + 1..])
  }

  predicate RuleApplies(policy: Policy, rule: AllowRule, fact: Fact, callee: Text) {
    && PathMatches(policy, rule.path, fact.path)
    && (rule.callerUsr == [] || rule.callerUsr == fact.callerUsr) && rule.calleeUsr == callee
  }

  /** A wrapper must call what it wraps. */
  predicate IsTheWrap(fact: Fact, wrapper: Option<Inventory>) {
    wrapper.Some? && fact.callerUsr != [] && fact.callerUsr == wrapper.value.wrapperUsr
  }

  /** Allowed without consulting the rules, which are then not used. */
  predicate AllowedOutright(policy: Policy, fact: Fact, wrapper: Option<Inventory>) {
    IsTheWrap(fact, wrapper) || CalleeIdentity(policy, fact, wrapper) in policy.allowedUsrs
  }

  /** The first rule that applies, or the number of rules. */
  function FirstRule(policy: Policy, fact: Fact, callee: Text, from: nat := 0): (i: nat)
    requires from <= |policy.rules|
    ensures from <= i <= |policy.rules|
    ensures i < |policy.rules| ==> RuleApplies(policy, policy.rules[i], fact, callee)
    ensures forall k :: from <= k < i ==> !RuleApplies(policy, policy.rules[k], fact, callee)
    decreases |policy.rules| - from
  {
    if from == |policy.rules| || RuleApplies(policy, policy.rules[from], fact, callee) then from
    else FirstRule(policy, fact, callee, from + 1)
  }

  predicate IsAllowed(policy: Policy, fact: Fact, wrapper: Option<Inventory>) {
    || AllowedOutright(policy, fact, wrapper)
    || FirstRule(policy, fact, CalleeIdentity(policy, fact, wrapper)) < |policy.rules|
  }

  /** The rule that `is_allowed` counts as used, if any. */
  function RuleUsed(policy: Policy, fact: Fact, wrapper: Option<Inventory>): Option<nat> {
    var i := FirstRule(policy, fact, CalleeIdentity(policy, fact, wrapper));
    if AllowedOutright(policy, fact, wrapper) || i == |policy.rules| then None else Some(i)
  }

  /** A macro use inside the call, in the same caller, whose own wrapper is allowed. */
  predicate IsAllowedMacroOf(inventory: seq<Inventory>, policy: Policy, macro: Fact, call: Fact) {
    && macro.kind == Macro && !macro.isDefinition && macro.path == call.path && macro.callerUsr == call.callerUsr
    && call.start <= macro.start && call.end >= macro.end
    && var wrapper := FindWrapper(inventory, policy, macro);
      wrapper.Some? && IsAllowed(policy, macro, wrapper)
  }

  function FirstAllowedMacro(
    facts: seq<Fact>, inventory: seq<Inventory>, policy: Policy, call: Fact, from: nat := 0): (k: nat)
    requires from <= |facts|
    ensures from <= k <= |facts|
    ensures k < |facts| ==> IsAllowedMacroOf(inventory, policy, facts[k], call)
    ensures forall j :: from <= j < k ==> !IsAllowedMacroOf(inventory, policy, facts[j], call)
    decreases |facts| - from
  {
    if from == |facts| || IsAllowedMacroOf(inventory, policy, facts[from], call) then from
    else FirstAllowedMacro(facts, inventory, policy, call, from + 1)
  }

  // What needs no allowance.

  predicate CallsAWrapper(inventory: seq<Inventory>, call: Fact) {
    call.kind == Call && call.usr != [] && exists w :: w in inventory && w.wrapperUsr != [] && w.wrapperUsr == call.usr
  }

  predicate IsLocal(facts: seq<Fact>, call: Fact) {
    call.usr != [] && exists f :: f in facts && IsFunctionDefinition(f) && f.usr == call.usr
  }

  predicate IsErrnoUse(m: Fact, call: Fact) {
    && m.kind == Macro && !m.isDefinition && m.name == "errno"
    && m.line == call.line && m.path == call.path && m.callerUsr == call.callerUsr
  }

  predicate IsErrnoLowering(facts: seq<Fact>, policy: Policy, call: Fact) {
    call.usr in policy.errnoProviders && exists m :: m in facts && IsErrnoUse(m, call)
  }

  predicate IsImplementation(facts: seq<Fact>, policy: Policy, call: Fact, wrapper: Option<Inventory>) {
    var caller := SemanticCaller(facts, call, policy.sizeMax);
    (wrapper.Some? && wrapper.value.wrapperUsr != [] && caller != [] && wrapper.value.wrapperUsr == caller)
    || (call.usr, caller) in policy.lowered
  }

  // The verdict.

  predicate IsPlatformInclude(policy: Policy, fact: Fact) {
    && fact.kind == Include && policy.checkPortability
    && policy.isPlatformHeader(if fact.resolved != [] then fact.resolved else fact.name)
  }

  /** A call, or a use of a macro that is inside a function and that the inventory knows. */
  predicate IsOperation(facts: seq<Fact>, inventory: seq<Inventory>, policy: Policy, fact: Fact) {
    fact.kind == Call
    || (fact.kind == Macro && !fact.isDefinition
        && SemanticCaller(facts, fact, policy.sizeMax) != [] && FindWrapper(inventory, policy, fact).Some?)
  }

  /** The exemptions tried before any allowance. */
  predicate IsExempt(facts: seq<Fact>, inventory: seq<Inventory>, policy: Policy, fact: Fact) {
    fact.name == [] || CallsAWrapper(inventory, fact) || IsLocal(facts, fact) || IsErrnoLowering(facts, policy, fact)
  }

  /** `is_allowed` is asked about this fact. */
  predicate IsAsked(facts: seq<Fact>, inventory: seq<Inventory>, policy: Policy, fact: Fact) {
    && !IsPlatformInclude(policy, fact)
    && IsOperation(facts, inventory, policy, fact) && !IsExempt(facts, inventory, policy, fact)
  }

  /** The fact is a finding. */
  predicate IsRejected(facts: seq<Fact>, inventory: seq<Inventory>, policy: Policy, fact: Fact) {
    var wrapper := FindWrapper(inventory, policy, fact);
    IsPlatformInclude(policy, fact)
    || (IsAsked(facts, inventory, policy, fact)
        && !IsAllowed(policy, fact, wrapper)
        && FirstAllowedMacro(facts, inventory, policy, fact) == |facts|
        && !IsImplementation(facts, policy, fact, if fact.isIndirect then None else wrapper))
  }

  const UNKNOWN_CALLER: Text := "?"

  function FindingFor(inventory: seq<Inventory>, policy: Policy, fact: Fact): Finding {
    var caller := if fact.caller == [] then UNKNOWN_CALLER else fact.caller;
    if IsPlatformInclude(policy, fact) then
      Finding(Portability, fact.path, fact.name, caller, [], [], fact.line, fact.column)
    else
      var wrapper := if fact.isIndirect then None else FindWrapper(inventory, policy, fact);
      Finding(if fact.isIndirect then Indirect else if wrapper.Some? then Missed else External,
              fact.path, fact.name, caller, if wrapper.Some? then wrapper.value.wrapper else [],
              CalleeIdentity(policy, fact, wrapper), fact.line, fact.column)
  }

  // Findings are kept once per key.

  function Keys(findings: seq<Finding>): set<Key> { set f | f in findings :: KeyOf(f) }

  ghost predicate DistinctKeys(findings: seq<Finding>) {
    forall i, j :: 0 <= i < j < |findings| ==> KeyOf(findings[i]) != KeyOf(findings[j])
  }

  function WithFinding(findings: seq<Finding>, finding: Finding): seq<Finding> {
    if KeyOf(finding) in Keys(findings) then findings else findings + [finding]
  }

  /** The findings of the first `n` facts. */
  function Findings(facts: seq<Fact>, inventory: seq<Inventory>, policy: Policy, n: nat): seq<Finding>
    requires n <= |facts|
  {
    if n == 0 then []
    else
      var before, fact := Findings(facts, inventory, policy, n - 1), facts[n - 1];
      if IsRejected(facts, inventory, policy, fact) then WithFinding(before, FindingFor(inventory, policy, fact))
      else before
  }

  ghost function RejectedKeys(facts: seq<Fact>, inventory: seq<Inventory>, policy: Policy, n: nat): set<Key>
    requires n <= |facts|
  {
    set k | 0 <= k < n && IsRejected(facts, inventory, policy, facts[k]) :: FactKey(facts[k])
  }

  /** The keys are pairwise distinct and are exactly those of the rejected facts. */
  lemma {:induction false} FindingKeysAreRejectedKeys(
    facts: seq<Fact>, inventory: seq<Inventory>, policy: Policy, n: nat)
    requires n <= |facts|
    ensures DistinctKeys(Findings(facts, inventory, policy, n))
    ensures Keys(Findings(facts, inventory, policy, n)) == RejectedKeys(facts, inventory, policy, n)
  {
    hide IsRejected, FindingFor;
    if n == 0 {
      assert RejectedKeys(facts, inventory, policy, 0) == {};
    } else {
      FindingKeysAreRejectedKeys(facts, inventory, policy, n - 1);
      var before, fact := Findings(facts, inventory, policy, n - 1), facts[n - 1];
      var finding := FindingFor(inventory, policy, fact);
      FindingKeepsKey(inventory, policy, fact);
      KeysAppend(before, finding);
      assert RejectedKeys(facts, inventory, policy, n) ==
        RejectedKeys(facts, inventory, policy, n - 1) +
        if IsRejected(facts, inventory, policy, fact) then {FactKey(fact)} else {};
    }
  }

  ghost predicate IsFirstRejected(facts: seq<Fact>, inventory: seq<Inventory>, policy: Policy, k: nat)
    requires k < |facts|
  {
    && IsRejected(facts, inventory, policy, facts[k])
    && forall j :: 0 <= j < k && IsRejected(facts, inventory, policy, facts[j]) ==>
      FactKey(facts[j]) != FactKey(facts[k])
  }

  ghost predicate StandsFor(finding: Finding, facts: seq<Fact>, inventory: seq<Inventory>, policy: Policy, n: nat)
    requires n <= |facts|
  {
    exists k :: 0 <= k < n && IsFirstRejected(facts, inventory, policy, k) &&
      finding == FindingFor(inventory, policy, facts[k])
  }

  /** Of the rejected facts with one key it is the earliest whose finding is kept. */
  lemma {:induction false} EarliestFindingIsKept(
    facts: seq<Fact>, inventory: seq<Inventory>, policy: Policy, n: nat, finding: Finding)
    requires n <= |facts|
    ensures finding in Findings(facts, inventory, policy, n) <==> StandsFor(finding, facts, inventory, policy, n)
  {
    hide IsRejected, FindingFor, IsFirstRejected, RejectedKeys, StandsFor, Keys, KeyOf, FactKey;
    if n == 0 {
      NothingStands(finding, facts, inventory, policy);
    } else {
      var fact := facts[n - 1];
      EarliestFindingIsKept(facts, inventory, policy, n - 1, finding);
      FindingKeysAreRejectedKeys(facts, inventory, policy, n - 1);
      FindingKeepsKey(inventory, policy, fact);
      StandsForOneMore(finding, facts, inventory, policy, n - 1);
      FirstRejectedIff(facts, inventory, policy, n - 1);
    }
  }

  lemma NothingStands(finding: Finding, facts: seq<Fact>, inventory: seq<Inventory>, policy: Policy)
    ensures !StandsFor(finding, facts, inventory, policy, 0)
  {
  }

  lemma FirstRejectedIff(facts: seq<Fact>, inventory: seq<Inventory>, policy: Policy, n: nat)
    requires n < |facts|
    ensures IsFirstRejected(facts, inventory, policy, n) <==>
      IsRejected(facts, inventory, policy, facts[n])
      && FactKey(facts[n]) !in RejectedKeys(facts, inventory, policy, n)
  {
    hide IsRejected;
  }

  lemma StandsForOneMore(finding: Finding, facts: seq<Fact>, inventory: seq<Inventory>, policy: Policy, n: nat)
    requires n < |facts|
    ensures StandsFor(finding, facts, inventory, policy, n + 1) <==>
      StandsFor(finding, facts, inventory, policy, n)
      || (IsFirstRejected(facts, inventory, policy, n) && finding == FindingFor(inventory, policy, facts[n]))
  {
    hide IsFirstRejected, FindingFor;
  }

  lemma FindingKeepsKey(inventory: seq<Inventory>, policy: Policy, fact: Fact)
    ensures KeyOf(FindingFor(inventory, policy, fact)) == FactKey(fact)
  {
  }

  lemma KeysAppend(findings: seq<Finding>, finding: Finding)
    ensures Keys(findings + [finding]) == Keys(findings) + {KeyOf(finding)}
    ensures forall i :: 0 <= i < |findings| ==> KeyOf(findings[i]) in Keys(findings)
  {
    assert forall f :: f in findings + [finding] <==> f in findings || f == finding;
  }

  // More allowances, fewer findings.

  /** `wider` allows at least what `policy` allows and agrees with it otherwise. */
  ghost predicate Widens(wider: Policy, policy: Policy) {
    && wider == policy.(allowedUsrs := wider.allowedUsrs, rules := wider.rules)
    && (forall usr :: usr in policy.allowedUsrs ==> usr in wider.allowedUsrs)
    && (forall rule :: rule in policy.rules ==> rule in wider.rules)
  }

  lemma WidensAllowed(wider: Policy, policy: Policy, fact: Fact, wrapper: Option<Inventory>)
    requires Widens(wider, policy) && IsAllowed(policy, fact, wrapper)
    ensures IsAllowed(wider, fact, wrapper)
  {
    hide PathMatches, Find;
    var callee := CalleeIdentity(policy, fact, wrapper);
    assert callee == CalleeIdentity(wider, fact, wrapper);
    if !AllowedOutright(policy, fact, wrapper) {
      var rule := policy.rules[FirstRule(policy, fact, callee)];
      assert rule in policy.rules;
      var k: nat :| k < |wider.rules| && wider.rules[k] == rule;
      SamePathMatches(wider, policy, rule.path, fact.path);
      assert RuleApplies(wider, wider.rules[k], fact, callee);
    }
  }

  lemma SamePathMatches(wider: Policy, policy: Policy, pattern: Text, path: Text)
    requires Widens(wider, policy)
    ensures PathMatches(wider, pattern, path) == PathMatches(policy, pattern, path)
  {
  }

  lemma {:induction false} SameWrapper(wider: Policy, policy: Policy, inventory: seq<Inventory>, fact: Fact, from: nat)
    requires Widens(wider, policy) && from <= |inventory|
    ensures FindWrapper(inventory, wider, fact, from) == FindWrapper(inventory, policy, fact, from)
    decreases |inventory| - from
  {
    if from < |inventory| {
      SameWrapper(wider, policy, inventory, fact, from + 1);
    }
  }

  lemma WidensAllowedMacro(facts: seq<Fact>, inventory: seq<Inventory>, wider: Policy, policy: Policy, call: Fact)
    requires Widens(wider, policy) && FirstAllowedMacro(facts, inventory, policy, call) < |facts|
    ensures FirstAllowedMacro(facts, inventory, wider, call) < |facts|
  {
    hide FindWrapper, IsAllowed;
    var macro := facts[FirstAllowedMacro(facts, inventory, policy, call)];
    SameWrapper(wider, policy, inventory, macro, 0);
    WidensAllowed(wider, policy, macro, FindWrapper(inventory, policy, macro));
    assert IsAllowedMacroOf(inventory, wider, macro, call);
  }

  lemma RejectedShrinks(facts: seq<Fact>, inventory: seq<Inventory>, wider: Policy, policy: Policy, fact: Fact)
    requires Widens(wider, policy) && IsRejected(facts, inventory, wider, fact)
    ensures IsRejected(facts, inventory, policy, fact)
  {
    hide FindWrapper, IsAllowed, FirstAllowedMacro, SemanticCaller, IsLocal, CallsAWrapper;
    var wrapper := FindWrapper(inventory, policy, fact);
    SameWrapper(wider, policy, inventory, fact, 0);
    if IsAllowed(policy, fact, wrapper) {
      WidensAllowed(wider, policy, fact, wrapper);
    }
    if FirstAllowedMacro(facts, inventory, policy, fact) < |facts| {
      WidensAllowedMacro(facts, inventory, wider, policy, fact);
    }
  }

  /** Adding allow rules or allowed identities only shrinks the set of reported keys. */
  lemma WiderPolicyReportsLess(facts: seq<Fact>, inventory: seq<Inventory>, wider: Policy, policy: Policy)
    requires Widens(wider, policy)
    ensures Keys(Findings(facts, inventory, wider, |facts|)) <= Keys(Findings(facts, inventory, policy, |facts|))
  {
    hide IsRejected, Keys, Findings;
    FindingKeysAreRejectedKeys(facts, inventory, wider, |facts|);
    FindingKeysAreRejectedKeys(facts, inventory, policy, |facts|);
    forall key | key in RejectedKeys(facts, inventory, wider, |facts|)
      ensures key in RejectedKeys(facts, inventory, policy, |facts|)
    {
      var k :| 0 <= k < |facts| && IsRejected(facts, inventory, wider, facts[k]) && FactKey(facts[k]) == key;
      RejectedShrinks(facts, inventory, wider, policy, facts[k]);
    }
  }

  // What a finding says about how to allow it.

  /** The judge drops the inventory entry of an indirect fact before it prints the identity.  Only for a macro does the
      entry matter to the identity, and calls are the facts that are indirect. */
  predicate IsIndirectMacro(fact: Fact) { fact.isIndirect && fact.kind == Macro }

  /** The identity that a finding prints is the one that rules are matched against. */
  lemma PrintedIdentityIsMatched(inventory: seq<Inventory>, policy: Policy, fact: Fact)
    requires !IsPlatformInclude(policy, fact) && !IsIndirectMacro(fact)
    ensures FindingFor(inventory, policy, fact).allowIdentity ==
      CalleeIdentity(policy, fact, FindWrapper(inventory, policy, fact))
  {
    hide FindWrapper, Canonical, Find;
  }

  /** The inventory does not know the fact by another native identity than its own. */
  predicate EntryAgrees(inventory: seq<Inventory>, policy: Policy, fact: Fact) {
    var entry := FindWrapper(inventory, policy, fact);
    entry.Some? ==> entry.value.originalUsr == [] || entry.value.originalUsr == Canonical(policy, fact.usr)
  }

  /** For any fact, also one that no scan reports: printed and matched agree exactly when it is no indirect macro use or
      its entry agrees.  Identities of functions have no type marker and do not look like that of a macro. */
  lemma PrintedIdentityIff(inventory: seq<Inventory>, policy: Policy, fact: Fact)
    requires !IsPlatformInclude(policy, fact)
    requires Find(Canonical(policy, fact.usr), TYPE_MARKER).None?
    requires forall entry :: entry in inventory ==> !(MACRO_PREFIX <= entry.originalUsr)
    ensures var matched := CalleeIdentity(policy, fact, FindWrapper(inventory, policy, fact));
      (FindingFor(inventory, policy, fact).allowIdentity == matched) <==>
        (!IsIndirectMacro(fact) || EntryAgrees(inventory, policy, fact))
  {
    FoundIsListed(inventory, policy, fact, 0);
    PrintedMacroStartsSo(fact.name);
    hide FindWrapper, Canonical, Find, Printed;
  }

  /** The shape on the other side of that condition. */
  lemma IndirectMacroDisagrees(policy: Policy, fact: Fact)
    requires [] !in policy.canonical
    ensures var use := fact.(kind := Macro, name := "m", usr := [], isIndirect := true);
      var inventory := [Inventory("m", "c:@F@m", "p101_m", "c:@F@p101_m")];
      && !EntryAgrees(inventory, policy, use)
      && FindingFor(inventory, policy, use).allowIdentity == "macro:m"
      && CalleeIdentity(policy, use, FindWrapper(inventory, policy, use)) == "c:@F@m"
  {
    var use := fact.(kind := Macro, name := "m", usr := [], isIndirect := true);
    var entry := Inventory("m", "c:@F@m", "p101_m", "c:@F@p101_m");
    assert FindWrapper([entry], policy, use) == Some(entry);
    assert !OccursAt([], TYPE_MARKER, 0);
    assert Find([], TYPE_MARKER) == None;
    assert MACRO_PREFIX + "m" == "macro:m";
  }

  lemma {:induction false} FoundIsListed(inventory: seq<Inventory>, policy: Policy, fact: Fact, from: nat)
    requires from <= |inventory|
    ensures var entry := FindWrapper(inventory, policy, fact, from); entry.Some? ==> entry.value in inventory
    decreases |inventory| - from
  {
    if from < |inventory| {
      FoundIsListed(inventory, policy, fact, from + 1);
    }
  }

  lemma PrintedMacroStartsSo(name: Text)
    ensures MACRO_PREFIX <= Printed(MACRO_PREFIX + name)
  {
  }

  /** A rule for the fact's path and caller with the matched identity silences the fact. */
  lemma MatchedIdentitySilences(
    facts: seq<Fact>, inventory: seq<Inventory>, wider: Policy, policy: Policy, fact: Fact, rule: AllowRule)
    requires Widens(wider, policy) && rule in wider.rules && !IsPlatformInclude(policy, fact)
    requires PathMatches(policy, rule.path, fact.path) && (rule.callerUsr == [] || rule.callerUsr == fact.callerUsr)
    requires rule.calleeUsr == CalleeIdentity(policy, fact, FindWrapper(inventory, policy, fact))
    ensures !IsRejected(facts, inventory, wider, fact)
  {
    hide FindWrapper, FindingFor, CalleeIdentity, PathMatches, SemanticCaller;
    var wrapper := FindWrapper(inventory, policy, fact);
    SameWrapper(wider, policy, inventory, fact, 0);
    SameIdentity(wider, policy, fact, wrapper);
    SamePathMatches(wider, policy, rule.path, fact.path);
    var k :| 0 <= k < |wider.rules| && wider.rules[k] == rule;
    assert RuleApplies(wider, wider.rules[k], fact, CalleeIdentity(wider, fact, wrapper));
  }

  /** Copying the printed identity into such a rule does. */
  lemma PrintedIdentitySilences(
    facts: seq<Fact>, inventory: seq<Inventory>, wider: Policy, policy: Policy, fact: Fact, rule: AllowRule)
    requires Widens(wider, policy) && rule in wider.rules
    requires !IsPlatformInclude(policy, fact) && !IsIndirectMacro(fact)
    requires PathMatches(policy, rule.path, fact.path) && (rule.callerUsr == [] || rule.callerUsr == fact.callerUsr)
    requires rule.calleeUsr == FindingFor(inventory, policy, fact).allowIdentity
    ensures !IsRejected(facts, inventory, wider, fact)
  {
    hide IsRejected, FindingFor, CalleeIdentity, PathMatches, FindWrapper;
    PrintedIdentityIsMatched(inventory, policy, fact);
    MatchedIdentitySilences(facts, inventory, wider, policy, fact, rule);
  }

  lemma SameIdentity(wider: Policy, policy: Policy, fact: Fact, wrapper: Option<Inventory>)
    requires Widens(wider, policy)
    ensures CalleeIdentity(wider, fact, wrapper) == CalleeIdentity(policy, fact, wrapper)
  {
    hide Find;
  }

  // How often the rules are used.

  /** The rule that judging a fact uses: its own, or else that of the macro that excuses it. */
  function RuleUsedBy(facts: seq<Fact>, inventory: seq<Inventory>, policy: Policy, fact: Fact): Option<nat> {
    var wrapper := FindWrapper(inventory, policy, fact);
    if !IsAsked(facts, inventory, policy, fact) then None
    else if IsAllowed(policy, fact, wrapper) then RuleUsed(policy, fact, wrapper)
    else
      var k := FirstAllowedMacro(facts, inventory, policy, fact);
      if k == |facts| then None else RuleUsed(policy, facts[k], FindWrapper(inventory, policy, facts[k]))
  }

  function Uses(facts: seq<Fact>, inventory: seq<Inventory>, policy: Policy, rule: nat, n: nat): nat
    requires n <= |facts|
  {
    if n == 0 then 0
    else
      var used := RuleUsedBy(facts, inventory, policy, facts[n - 1]);
      Uses(facts, inventory, policy, rule, n - 1) + if used == Some(rule) then 1 else 0
  }

  // The loops.  `uses` are the counters of the rules.

  method FindWrapperEntry(inventory: seq<Inventory>, policy: Policy, fact: Fact) returns (wrapper: Option<Inventory>)
    ensures wrapper == FindWrapper(inventory, policy, fact)
  {
    for index := 0 to |inventory|
      invariant FindWrapper(inventory, policy, fact) == FindWrapper(inventory, policy, fact, index)
    {
      if IsWrapperFor(inventory[index], policy, fact) {
        return Some(inventory[index]);
      }
    }
    wrapper := None;
  }

  method MatchPath(policy: Policy, pattern: Text, path: Text) returns (found: bool)
    ensures found == PathMatches(policy, pattern, path)
  {
    var candidate := 0;
    if policy.matches(pattern, path) {
      return true;
    }
    while candidate < |path|
      invariant candidate <= |path|
      invariant forall k :: 0 <= k < candidate && path[k] == '/' ==> !policy.matches(pattern, path[k + 1..])
    {
      if path[candidate] == '/' && policy.matches(pattern, path[candidate + 1..]) {
        return true;
      }
      candidate := candidate + 1;
    }
    found := false;
  }

  predicate CountedUse(uses: seq<nat>, before: seq<nat>, used: Option<nat>) {
    |uses| == |before| && forall i :: 0 <= i < |uses| ==> uses[i] == before[i] + if used == Some(i) then 1 else 0
  }

  method TestAllowed(policy: Policy, uses: array<nat>, fact: Fact, wrapper: Option<Inventory>) returns (allowed: bool)
    requires uses.Length == |policy.rules|
    modifies uses
    ensures allowed == IsAllowed(policy, fact, wrapper)
    ensures CountedUse(uses[..], old(uses[..]), RuleUsed(policy, fact, wrapper))
  {
    hide CalleeIdentity, PathMatches;
    var callee := CalleeIdentity(policy, fact, wrapper);
    if IsTheWrap(fact, wrapper) {
      return true;
    }
    for index := 0 to |policy.allowedUsrs|
      invariant callee !in policy.allowedUsrs[..index]
    {
      if policy.allowedUsrs[index] == callee {
        return true;
      }
      assert policy.allowedUsrs[..index + 1] == policy.allowedUsrs[..index] + [policy.allowedUsrs[index]];
    }
    assert policy.allowedUsrs[..|policy.allowedUsrs|] == policy.allowedUsrs;
    for index := 0 to |policy.rules|
      invariant uses[..] == old(uses[..])
      invariant FirstRule(policy, fact, callee) == FirstRule(policy, fact, callee, index)
    {
      var rule := policy.rules[index];
      var pathMatches := MatchPath(policy, rule.path, fact.path);
      if pathMatches && (rule.callerUsr == [] || rule.callerUsr == fact.callerUsr) && rule.calleeUsr == callee {
        uses[index] := uses[index] + 1;
        return true;
      }
    }
    allowed := false;
  }

  method TestAllowedMacro(facts: seq<Fact>, inventory: seq<Inventory>, policy: Policy, uses: array<nat>, call: Fact)
    returns (allowed: bool)
    requires uses.Length == |policy.rules|
    modifies uses
    ensures allowed == (FirstAllowedMacro(facts, inventory, policy, call) < |facts|)
    ensures var k := FirstAllowedMacro(facts, inventory, policy, call);
      var used := if allowed then RuleUsed(policy, facts[k], FindWrapper(inventory, policy, facts[k])) else None;
      CountedUse(uses[..], old(uses[..]), used)
  {
    hide FindWrapper, IsAllowed, RuleUsed;
    for index := 0 to |facts|
      invariant uses[..] == old(uses[..])
      invariant FirstAllowedMacro(facts, inventory, policy, call) ==
        FirstAllowedMacro(facts, inventory, policy, call, index)
    {
      var macro := facts[index];
      if macro.kind != Macro || macro.isDefinition || macro.path != call.path || macro.callerUsr != call.callerUsr
         || call.start > macro.start || call.end < macro.end {
        continue;
      }
      var wrapper := FindWrapperEntry(inventory, policy, macro);
      if wrapper.Some? {
        var macroAllowed := TestAllowed(policy, uses, macro, wrapper);
        if macroAllowed {
          return true;
        }
        NotAllowedUsesNothing(policy, macro, wrapper);
        assert uses[..] == old(uses[..]);
      }
    }
    allowed := false;
  }

  lemma NotAllowedUsesNothing(policy: Policy, fact: Fact, wrapper: Option<Inventory>)
    ensures !IsAllowed(policy, fact, wrapper) ==> RuleUsed(policy, fact, wrapper) == None
  {
  }

  class Model {
    const facts: seq<Fact>
    const inventory: seq<Inventory>
    var findings: seq<Finding>

    constructor (facts: seq<Fact>, inventory: seq<Inventory>)
      ensures this.facts == facts && this.inventory == inventory && findings == []
    {
      this.facts, this.inventory, findings := facts, inventory, [];
    }

    method AddFinding(finding: Finding)
      modifies this
      ensures findings == WithFinding(old(findings), finding)
    {
      for index := 0 to |findings|
        invariant findings == old(findings)
        invariant forall i :: 0 <= i < index ==> KeyOf(findings[i]) != KeyOf(finding)
      {
        if findings[index].line == finding.line && findings[index].column == finding.column
           && findings[index].path == finding.path && findings[index].name == finding.name {
          assert KeyOf(findings[index]) in Keys(findings);
          return;
        }
      }
      findings := findings + [finding];
    }
  }

  method TestCallsAWrapper(inventory: seq<Inventory>, call: Fact) returns (known: bool)
    ensures known == CallsAWrapper(inventory, call)
  {
    known := false;
    if call.kind != Call || call.usr == [] {
      return;
    }
    var index := 0;
    while index < |inventory| && !known
      invariant 0 <= index <= |inventory|
      invariant known <==> exists w :: w in inventory[..index] && w.wrapperUsr != [] && w.wrapperUsr == call.usr
    {
      if inventory[index].wrapperUsr != [] && inventory[index].wrapperUsr == call.usr {
        known := true;
      }
      index := index + 1;
    }
  }

  method TestLocal(facts: seq<Fact>, call: Fact) returns (local: bool)
    ensures local == IsLocal(facts, call)
  {
    if call.usr == [] {
      return false;
    }
    for index := 0 to |facts|
      invariant forall k :: 0 <= k < index ==> !(IsFunctionDefinition(facts[k]) && facts[k].usr == call.usr)
    {
      if facts[index].kind != Function || !facts[index].isDefinition {
        continue;
      }
      if facts[index].usr == call.usr {
        return true;
      }
    }
    local := false;
  }

  method TestErrnoLowering(facts: seq<Fact>, policy: Policy, call: Fact) returns (lowering: bool)
    ensures lowering == IsErrnoLowering(facts, policy, call)
  {
    if call.usr !in policy.errnoProviders {
      return false;
    }
    for index := 0 to |facts|
      invariant forall k :: 0 <= k < index ==> !IsErrnoUse(facts[k], call)
    {
      var macro := facts[index];
      if macro.kind != Macro || macro.isDefinition || macro.line != call.line || macro.path != call.path
        || macro.callerUsr != call.callerUsr {
        continue;
      }
      if macro.name == "errno" {
        assert macro in facts && IsErrnoUse(macro, call);
        return true;
      }
    }
    lowering := false;
  }

  /** The exemptions in the order in which they are tried. */
  method TestExempt(facts: seq<Fact>, inventory: seq<Inventory>, policy: Policy, fact: Fact) returns (exempt: bool)
    ensures exempt == IsExempt(facts, inventory, policy, fact)
  {
    hide CallsAWrapper, IsLocal, IsErrnoLowering;
    exempt := fact.name == [];
    if !exempt {
      exempt := TestCallsAWrapper(inventory, fact);
    }
    if !exempt {
      exempt := TestLocal(facts, fact);
    }
    if !exempt {
      exempt := TestErrnoLowering(facts, policy, fact);
    }
  }

  /** One turn of the loop of the judge. */
  method JudgeFact(model: Model, policy: Policy, uses: array<nat>, fact: Fact)
    requires uses.Length == |policy.rules|
    modifies model, uses
    ensures model.findings == if IsRejected(model.facts, model.inventory, policy, fact)
                              then WithFinding(old(model.findings), FindingFor(model.inventory, policy, fact))
                              else old(model.findings)
    ensures CountedUse(uses[..], old(uses[..]), RuleUsedBy(model.facts, model.inventory, policy, fact))
  {
    hide FindWrapper, IsAllowed, FirstAllowedMacro, SemanticCaller, IsLocal, CallsAWrapper, IsErrnoLowering, RuleUsed,
      WithFinding, Find;
    if IsPlatformInclude(policy, fact) {
      model.AddFinding(FindingFor(model.inventory, policy, fact));
      return;
    }
    if !(fact.kind == Call || (fact.kind == Macro && !fact.isDefinition)) {
      return;
    }
    if fact.kind == Macro {
      var callerUsr := SemanticCallerUsr(model.facts, fact, policy.sizeMax);
      if callerUsr == [] {
        return;
      }
    }
    var wrapper := FindWrapperEntry(model.inventory, policy, fact);
    if fact.kind == Macro && wrapper.None? {
      return;
    }
    var exempt := TestExempt(model.facts, model.inventory, policy, fact);
    if exempt {
      return;
    }
    var allowed := TestAllowed(policy, uses, fact, wrapper);
    if allowed {
      return;
    }
    NotAllowedUsesNothing(policy, fact, wrapper);
    assert uses[..] == old(uses[..]);
    allowed := TestAllowedMacro(model.facts, model.inventory, policy, uses, fact);
    if allowed {
      return;
    }
    if fact.isIndirect {
      wrapper := None;
    }
    var implementation := TestImplementation(model.facts, policy, fact, wrapper);
    if implementation {
      return;
    }
    model.AddFinding(FindingFor(model.inventory, policy, fact));
  }

  method TestImplementation(facts: seq<Fact>, policy: Policy, call: Fact, wrapper: Option<Inventory>)
    returns (implementation: bool)
    ensures implementation == IsImplementation(facts, policy, call, wrapper)
  {
    var callerUsr := SemanticCallerUsr(facts, call, policy.sizeMax);
    var declared := wrapper.Some? && wrapper.value.wrapperUsr != [] && callerUsr != []
      && wrapper.value.wrapperUsr == callerUsr;
    implementation := declared
                      || (call.usr, callerUsr) in policy.lowered;
  }

  /** `p101_wrapper_model_judge` on a run without resource failures: the findings are those of the rejected facts, and
      the run succeeds exactly when every allow rule was used. */
  method JudgeModel(model: Model, policy: Policy, uses: array<nat>) returns (judged: bool)
    requires uses.Length == |policy.rules| && model.findings == []
    modifies model, uses
    ensures model.findings == Findings(model.facts, model.inventory, policy, |model.facts|)
    ensures forall i :: 0 <= i < uses.Length ==>
      uses[i] == old(uses[i]) + Uses(model.facts, model.inventory, policy, i, |model.facts|)
    ensures judged <==> forall i :: 0 <= i < uses.Length ==>
      old(uses[i]) + Uses(model.facts, model.inventory, policy, i, |model.facts|) > 0
  {
    hide IsRejected, FindingFor, RuleUsedBy, WithFinding;
    for index := 0 to |model.facts|
      invariant model.findings == Findings(model.facts, model.inventory, policy, index)
      invariant forall i :: 0 <= i < uses.Length ==>
        uses[i] == old(uses[i]) + Uses(model.facts, model.inventory, policy, i, index)
    {
      JudgeFact(model, policy, uses, model.facts[index]);
    }
    judged := true;
    for index := 0 to uses.Length
      invariant judged <==> forall i :: 0 <= i < index ==> uses[i] > 0
    {
      if uses[index] == 0 {
        judged := false;
      }
    }
  }
}
