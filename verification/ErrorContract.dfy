/** The per-function judgement: single exit, and env and error contracts that must be visible before they are needed. */
module ErrorContract {
  import opened CStrings
  import opened ContractModel

  // Which events belong to a function.

  /** The line of the next function in the same file; `sizeMax` when there is none. */
  ghost predicate IsNextLine(functions: seq<Function>, owner: Function, line: nat, sizeMax: nat) {
    && (line == sizeMax || exists f :: f in functions && IsBehind(f, owner) && f.line == line)
    && (forall f :: f in functions && IsBehind(f, owner) && f.line < sizeMax ==> line <= f.line)
  }

  predicate IsBehind(candidate: Function, owner: Function) {
    candidate.path == owner.path && owner.line < candidate.line
  }

  /** The running minimum over the first `n` functions. */
  function NextLine(functions: seq<Function>, owner: Function, sizeMax: nat, n: nat): (line: nat)
    requires n <= |functions|
    ensures IsNextLine(functions[..n], owner, line, sizeMax) && line <= sizeMax
  {
    if n == 0 then sizeMax
    else
      var line := NextLine(functions, owner, sizeMax, n - 1);
      var candidate := functions[n - 1];
      assert functions[..n] == functions[..n - 1] + [candidate];
      if !IsBehind(candidate, owner) || candidate.line >= line then line else candidate.line
  }

  method NextFunctionLine(functions: seq<Function>, owner: Function, sizeMax: nat) returns (line: nat)
    ensures line == NextLine(functions, owner, sizeMax, |functions|)
    ensures IsNextLine(functions, owner, line, sizeMax)
  {
    line := sizeMax;
    for i := 0 to |functions|
      invariant line == NextLine(functions, owner, sizeMax, i)
    {
      var candidate := functions[i];
      if candidate.line <= owner.line || candidate.line >= line || candidate.path != owner.path {
        continue;
      }
      line := candidate.line;
    }
    assert functions[..|functions|] == functions;
  }

  /** By exact identity when there is one, else by exact extent, else by the lines up to the next function. */
  predicate Belongs(event: Event, owner: Function, endLine: nat) {
    event.path == owner.path &&
    if event.callerUsr != [] then event.callerUsr == owner.usr
    else if event.start != 0 && owner.end > owner.start then owner.start <= event.start < owner.end
    else owner.line <= event.line < endLine
  }

  predicate NotAfter(candidate: Event, event: Event) {
    if candidate.start != 0 && event.start != 0 then candidate.start <= event.start else candidate.line <= event.line
  }

  // Exits.

  datatype Site = Site(kind: EventKind, line: nat, start: nat, path: Text, callerUsr: Text)

  function SiteOf(event: Event): Site { Site(event.kind, event.line, event.start, event.path, event.callerUsr) }

  predicate IsExit(event: Event, owner: Function, endLine: nat) {
    (event.kind == FunctionReturn || event.kind == ProcessTermination) && Belongs(event, owner, endLine)
  }

  predicate IsRepeated(events: seq<Event>, k: nat)
    requires k < |events|
  {
    exists j :: 0 <= j < k && SiteOf(events[j]) == SiteOf(events[k])
  }

  /** The exits among the first `n` events, each at its first mention, in event order. */
  function Exits(events: seq<Event>, owner: Function, endLine: nat, n: nat): (exits: seq<Event>)
    requires n <= |events|
  {
    if n == 0 then []
    else
      Exits(events, owner, endLine, n - 1) +
      if IsExit(events[n - 1], owner, endLine) && !IsRepeated(events, n - 1) then [events[n - 1]] else []
  }

  ghost function ExitSites(events: seq<Event>, owner: Function, endLine: nat, n: nat): set<Site>
    requires n <= |events|
  {
    set k | 0 <= k < n && IsExit(events[k], owner, endLine) :: SiteOf(events[k])
  }

  /** Attribution looks only at what makes a site, so repeated mentions are attributed alike and the exits that the
      count skips are exactly the repetitions of exits that it has counted. */
  lemma {:induction false} ExitsAreDistinctSites(events: seq<Event>, owner: Function, endLine: nat, n: nat)
    requires n <= |events|
    ensures |Exits(events, owner, endLine, n)| == |ExitSites(events, owner, endLine, n)|
  {
    hide IsExit, IsRepeated;
    if n == 0 {
      assert ExitSites(events, owner, endLine, 0) == {};
    } else {
      ExitsAreDistinctSites(events, owner, endLine, n - 1);
      ExitSitesStep(events, owner, endLine, n - 1);
    }
  }

  lemma ExitSitesStep(events: seq<Event>, owner: Function, endLine: nat, n: nat)
    requires n < |events|
    ensures var before, after := ExitSites(events, owner, endLine, n), ExitSites(events, owner, endLine, n + 1);
      |after| == |before| + if IsExit(events[n], owner, endLine) && !IsRepeated(events, n) then 1 else 0
  {
    var before, after := ExitSites(events, owner, endLine, n), ExitSites(events, owner, endLine, n + 1);
    var event := events[n];
    if !IsExit(event, owner, endLine) {
      assert after == before;
    } else if IsRepeated(events, n) {
      var j :| 0 <= j < n && SiteOf(events[j]) == SiteOf(event);
      assert IsExit(events[j], owner, endLine);
      assert after == before;
    } else {
      assert after == before + {SiteOf(event)};
    }
  }

  method ExitEventIsDuplicate(events: seq<Event>, eventIndex: nat) returns (duplicate: bool)
    requires eventIndex < |events|
    ensures duplicate == IsRepeated(events, eventIndex)
  {
    var event := events[eventIndex];
    for index := 0 to eventIndex
      invariant forall j :: 0 <= j < index ==> SiteOf(events[j]) != SiteOf(event)
    {
      var candidate := events[index];
      if candidate.kind == event.kind && candidate.line == event.line && candidate.start == event.start
         && candidate.path == event.path && candidate.callerUsr == event.callerUsr {
        return true;
      }
    }
    duplicate := false;
  }

  /** The number of distinct exit sites, and the line of the second one in event order. */
  method FunctionExitCount(events: seq<Event>, owner: Function, endLine: nat) returns (count: nat, secondExitLine: nat)
    ensures count == |ExitSites(events, owner, endLine, |events|)| == |Exits(events, owner, endLine, |events|)|
    ensures secondExitLine == if count >= 2 then Exits(events, owner, endLine, |events|)[1].line else owner.line
  {
    hide IsExit, IsRepeated, ExitSites;
    count, secondExitLine := 0, owner.line;
    for index := 0 to |events|
      invariant count == |Exits(events, owner, endLine, index)|
      invariant secondExitLine == if count >= 2 then Exits(events, owner, endLine, index)[1].line else owner.line
    {
      var isExit := IsExit(events[index], owner, endLine);
      if !isExit {
        continue;
      }
      var duplicate := ExitEventIsDuplicate(events, index);
      if duplicate {
        continue;
      }
      count := count + 1;
      if count == 2 {
        secondExitLine := events[index].line;
      }
    }
    ExitsAreDistinctSites(events, owner, endLine, |events|);
  }

  // Visibility of the contracts.

  predicate NeedsEnv(event: Event) { event.kind == TraceUse || (event.kind == Call && event.needsEnv) }

  predicate NeedsError(event: Event) { event.kind == ErrorCheck || (event.kind == Call && event.needsError) }

  /** Some use of this kind in the function is not after the event. */
  predicate UsedBy(events: seq<Event>, kind: EventKind, owner: Function, event: Event, endLine: nat) {
    exists k :: 0 <= k < |events| && IsUse(events[k], kind, owner, event, endLine)
  }

  predicate IsUse(candidate: Event, kind: EventKind, owner: Function, event: Event, endLine: nat) {
    candidate.kind == kind && NotAfter(candidate, event) && Belongs(candidate, owner, endLine)
  }

  predicate EnvVisible(events: seq<Event>, owner: Function, event: Event, endLine: nat) {
    owner.hasEnvContract || UsedBy(events, EnvUse, owner, event, endLine)
  }

  predicate ErrorVisible(events: seq<Event>, owner: Function, event: Event, endLine: nat) {
    owner.hasErrorContract || UsedBy(events, ErrorUse, owner, event, endLine)
  }

  /** A note at the event's very place declares the error optional. */
  predicate ErrorIsOptional(events: seq<Event>, owner: Function, event: Event, endLine: nat) {
    exists k :: 0 <= k < |events| && events[k].kind == ErrorOptional && events[k].line == event.line
      && events[k].start == event.start && events[k].callerUsr == event.callerUsr && Belongs(events[k], owner, endLine)
  }

  method VisibleBefore(
    events: seq<Event>, kind: EventKind, hasContract: bool, owner: Function, event: Event, endLine: nat)
    returns (visible: bool)
    ensures visible == (hasContract || UsedBy(events, kind, owner, event, endLine))
  {
    visible := hasContract;
    var i := 0;
    while i < |events| && !visible
      invariant 0 <= i <= |events| && visible == (hasContract || UsedBy(events[..i], kind, owner, event, endLine))
    {
      var candidate := events[i];
      assert events[..i + 1] == events[..i] + [candidate];
      if candidate.kind == kind && NotAfter(candidate, event) && Belongs(candidate, owner, endLine) {
        visible := true;
      }
      i := i + 1;
    }
    UsedByPrefix(events, i, kind, owner, event, endLine);
  }

  lemma UsedByPrefix(events: seq<Event>, i: nat, kind: EventKind, owner: Function, event: Event, endLine: nat)
    requires i <= |events|
    ensures UsedBy(events[..i], kind, owner, event, endLine) ==> UsedBy(events, kind, owner, event, endLine)
    ensures i == |events| ==> events[..i] == events
  {
    if UsedBy(events[..i], kind, owner, event, endLine) {
      var k :| 0 <= k < i && IsUse(events[..i][k], kind, owner, event, endLine);
      assert events[k] == events[..i][k];
    }
  }

  method ErrorIsExplicitlyOptional(events: seq<Event>, owner: Function, event: Event, endLine: nat)
    returns (optional: bool)
    ensures optional == ErrorIsOptional(events, owner, event, endLine)
  {
    for i := 0 to |events|
      invariant !ErrorIsOptional(events[..i], owner, event, endLine)
    {
      var candidate := events[i];
      assert events[..i + 1] == events[..i] + [candidate];
      if candidate.kind != ErrorOptional || candidate.line != event.line || candidate.start != event.start
        || candidate.callerUsr != event.callerUsr {
        continue;
      }
      if Belongs(candidate, owner, endLine) {
        return true;
      }
    }
    assert events[..|events|] == events;
    optional := false;
  }

  /** The first return that is not the function's last statement. */
  function FirstEarlyReturn(events: seq<Event>, owner: Function, endLine: nat, from: nat := 0): (k: nat)
    requires from <= |events|
    ensures from <= k <= |events|
    ensures k < |events| ==> events[k].kind == FunctionEarlyReturn && Belongs(events[k], owner, endLine)
    ensures forall j :: from <= j < k ==> !(events[j].kind == FunctionEarlyReturn && Belongs(events[j], owner, endLine))
    decreases |events| - from
  {
    if from == |events| || (events[from].kind == FunctionEarlyReturn && Belongs(events[from], owner, endLine)) then from
    else FirstEarlyReturn(events, owner, endLine, from + 1)
  }

  method FunctionEarlyReturnLine(events: seq<Event>, owner: Function, endLine: nat) returns (line: nat)
    ensures var k := FirstEarlyReturn(events, owner, endLine); line == if k < |events| then events[k].line else 0
  {
    line := 0;
    for index := 0 to |events|
      invariant FirstEarlyReturn(events, owner, endLine) == FirstEarlyReturn(events, owner, endLine, index)
    {
      var event := events[index];
      if event.kind == FunctionEarlyReturn && Belongs(event, owner, endLine) {
        return event.line;
      }
    }
  }

  // The judgement of one event, without any state.

  /** Kinds reported as they are.  Terminating the process is allowed in `main` and in declared adapters. */
  predicate IsDirect(event: Event, owner: Function) {
    match event.kind
    case ProcessTermination => owner.usr != "c:@F@main" && !owner.isTerminationAdapter
    case CallNotIsolated | ErrorOutputUnchecked | MustCheckResultDiscarded | ErrorCleanupShadow => true
    case PartialResultDiscarded | UncertainProgressRetried | ConditionWaitOutsideLoop | PostForkUnsafeCall => true
    case ZeroSizeAllocation | OverlappingRestrictedCopy | ThreadAutomaticStorageEscape => true
    case EnvBorrowedPointerInvalidated | PathToctou | RecursiveCall => true
    case _ => false
  }

  /** The event needs a contract that is not visible yet.  Only the error rule knows an exemption. */
  predicate Violates(rule: Rule, events: seq<Event>, owner: Function, endLine: nat, event: Event) {
    Belongs(event, owner, endLine) &&
    match rule
    case EnvRequired => NeedsEnv(event) && !EnvVisible(events, owner, event, endLine)
    case ErrorRequired =>
      && NeedsError(event)
      && !ErrorVisible(events, owner, event, endLine) && !ErrorIsOptional(events, owner, event, endLine)
    case _ => false
  }

  /** One of the first `n` events violates the rule. */
  predicate Seen(rule: Rule, events: seq<Event>, owner: Function, endLine: nat, n: nat)
    requires n <= |events|
  {
    exists j :: 0 <= j < n && Violates(rule, events, owner, endLine, events[j])
  }

  predicate IsFirst(rule: Rule, events: seq<Event>, owner: Function, endLine: nat, k: nat)
    requires k < |events|
  {
    Violates(rule, events, owner, endLine, events[k]) && !Seen(rule, events, owner, endLine, k)
  }

  function FindingAt(rule: Rule, event: Event, owner: Function): seq<Finding> {
    [Finding(rule, event.path, event.line, owner.name)]
  }

  function FindingIf(condition: bool, rule: Rule, event: Event, owner: Function): seq<Finding> {
    if condition then FindingAt(rule, event, owner) else []
  }

  /** What event `k` contributes: contract violations only when they are the function's first. */
  function EventFindings(events: seq<Event>, owner: Function, endLine: nat, strict: bool, k: nat): seq<Finding>
    requires k < |events|
  {
    var event, optional := events[k], ErrorIsOptional(events, owner, events[k], endLine);
    if !Belongs(event, owner, endLine) then []
    else if IsDirect(event, owner) then FindingIf(true, Direct(event.kind), event, owner)
    else
      FindingIf(IsFirst(EnvRequired, events, owner, endLine, k), EnvRequired, event, owner)
      + FindingIf(IsFirst(ErrorRequired, events, owner, endLine, k), ErrorRequired, event, owner)
      + FindingIf(event.kind == ErrorDiscard && !optional, ErrorDiscarded, event, owner)
      + FindingIf(strict && event.kind == ErrorUncheckedChain && !optional, UncheckedChain, event, owner)
  }

  function EventsFindings(events: seq<Event>, owner: Function, endLine: nat, strict: bool, n: nat): seq<Finding>
    requires n <= |events|
  {
    if n == 0 then []
    else EventsFindings(events, owner, endLine, strict, n - 1) + EventFindings(events, owner, endLine, strict, n - 1)
  }

  /** The single-exit judgement: an early return with a line, else a second exit site. */
  function ExitFindings(events: seq<Event>, owner: Function, endLine: nat): seq<Finding> {
    var early := FirstEarlyReturn(events, owner, endLine);
    var exits := Exits(events, owner, endLine, |events|);
    if early < |events| && events[early].line != 0 then
      [Finding(SingleExit, owner.path, events[early].line, owner.name)]
    else if |exits| > 1 then [Finding(SingleExit, owner.path, exits[1].line, owner.name)]
    else []
  }

  function FunctionFindings(events: seq<Event>, owner: Function, endLine: nat, strict: bool): seq<Finding> {
    ExitFindings(events, owner, endLine) + EventsFindings(events, owner, endLine, strict, |events|)
  }

  // When the single-exit rule is silent.

  /** Silent exactly when there is at most one exit site and the first early return, if any, has no line.  The scan for
      early returns ends at the first one, so one without a line also hides every later one. */
  lemma SingleExitSilentIff(events: seq<Event>, owner: Function, endLine: nat)
    ensures var early := FirstEarlyReturn(events, owner, endLine);
      (ExitFindings(events, owner, endLine) == []) <==>
        (|ExitSites(events, owner, endLine, |events|)| <= 1 && (early < |events| ==> events[early].line == 0))
  {
    hide FirstEarlyReturn, Exits, ExitSites;
    ExitsAreDistinctSites(events, owner, endLine, |events|);
  }

  /** An early return at line 12 behind one without a line is not reported. */
  lemma EarlyReturnHidden(event: Event, owner: Function, endLine: nat)
    requires event.kind == FunctionEarlyReturn
    requires Belongs(event.(line := 0), owner, endLine) && Belongs(event.(line := 12), owner, endLine)
    ensures ExitFindings([event.(line := 0), event.(line := 12)], owner, endLine) == []
  {
    var events := [event.(line := 0), event.(line := 12)];
    assert FirstEarlyReturn(events, owner, endLine) == 0;
    hide Belongs;
    assert forall k :: 0 <= k < 2 ==> !IsExit(events[k], owner, endLine);
    assert Exits(events, owner, endLine, 0) == [];
    assert Exits(events, owner, endLine, 1) == Exits(events, owner, endLine, 2) == [];
  }

  // The properties of these findings.

  function OfRule(findings: seq<Finding>, rule: Rule): seq<Finding> {
    if findings == [] then []
    else (if findings[0].rule == rule then [findings[0]] else []) + OfRule(findings[1..], rule)
  }

  lemma {:induction false} OfRuleAppend(left: seq<Finding>, right: seq<Finding>, rule: Rule)
    ensures OfRule(left + right, rule) == OfRule(left, rule) + OfRule(right, rule)
  {
    if left == [] {
      assert left + right == right;
    } else {
      assert (left + right)[1..] == left[1..] + right;
      OfRuleAppend(left[1..], right, rule);
    }
  }

  /** Direct kinds never need a contract, so an event reported as it is cannot be the first violation. */
  lemma DirectNeedsNothing(rule: Rule, events: seq<Event>, owner: Function, endLine: nat, event: Event)
    requires IsDirect(event, owner)
    ensures !Violates(rule, events, owner, endLine, event)
  {
  }

  lemma OfRuleFindingIf(condition: bool, actual: Rule, event: Event, owner: Function, rule: Rule)
    ensures OfRule(FindingIf(condition, actual, event, owner), rule) ==
      FindingIf(condition && actual == rule, rule, event, owner)
  {
  }

  lemma OfRuleInEvent(rule: Rule, events: seq<Event>, owner: Function, endLine: nat, strict: bool, k: nat)
    requires k < |events| && (rule == EnvRequired || rule == ErrorRequired)
    ensures OfRule(EventFindings(events, owner, endLine, strict, k), rule) ==
      FindingIf(IsFirst(rule, events, owner, endLine, k), rule, events[k], owner)
  {
    hide IsFirst, Belongs, IsDirect, ErrorIsOptional, OfRule;
    FirstBelongs(rule, events, owner, endLine, k);
    var event := events[k];
    var optional := ErrorIsOptional(events, owner, event, endLine);
    if !Belongs(event, owner, endLine) {
      OfRuleFindingIf(false, rule, event, owner, rule);
    } else if IsDirect(event, owner) {
      DirectNeedsNothing(rule, events, owner, endLine, event);
      OfRuleFindingIf(true, Direct(event.kind), event, owner, rule);
    } else {
      var env := FindingIf(IsFirst(EnvRequired, events, owner, endLine, k), EnvRequired, event, owner);
      var error := FindingIf(IsFirst(ErrorRequired, events, owner, endLine, k), ErrorRequired, event, owner);
      var discard := FindingIf(event.kind == ErrorDiscard && !optional, ErrorDiscarded, event, owner);
      var chain := FindingIf(strict && event.kind == ErrorUncheckedChain && !optional, UncheckedChain, event, owner);
      OfRuleAppend(env, error, rule);
      OfRuleAppend(env + error, discard, rule);
      OfRuleAppend(env + error + discard, chain, rule);
      OfRuleFindingIf(IsFirst(EnvRequired, events, owner, endLine, k), EnvRequired, event, owner, rule);
      OfRuleFindingIf(IsFirst(ErrorRequired, events, owner, endLine, k), ErrorRequired, event, owner, rule);
      OfRuleFindingIf(event.kind == ErrorDiscard && !optional, ErrorDiscarded, event, owner, rule);
      OfRuleFindingIf(strict && event.kind == ErrorUncheckedChain && !optional, UncheckedChain, event, owner, rule);
    }
  }

  lemma FirstBelongs(rule: Rule, events: seq<Event>, owner: Function, endLine: nat, k: nat)
    requires k < |events|
    ensures IsFirst(rule, events, owner, endLine, k) ==> Belongs(events[k], owner, endLine)
    ensures IsFirst(rule, events, owner, endLine, k) <==>
      Violates(rule, events, owner, endLine, events[k]) && !Seen(rule, events, owner, endLine, k)
  {
  }

  /** Each function gets at most one finding of either rule: none without a violation, else one at the first violation
      in event order. */
  lemma {:induction false} OneFindingAtFirstViolation(
    rule: Rule, events: seq<Event>, owner: Function, endLine: nat, strict: bool, n: nat)
    requires n <= |events| && (rule == EnvRequired || rule == ErrorRequired)
    ensures var found := OfRule(EventsFindings(events, owner, endLine, strict, n), rule);
      if Seen(rule, events, owner, endLine, n)
      then exists k ::
        0 <= k < n && IsFirst(rule, events, owner, endLine, k) && found == FindingAt(rule, events[k], owner)
      else found == []
  {
    hide EventFindings, Violates, Seen, IsFirst;
    if n == 0 {
      NothingSeen(rule, events, owner, endLine);
    } else {
      SeenStep(rule, events, owner, endLine, n - 1);
      FirstBelongs(rule, events, owner, endLine, n - 1);
      OneFindingAtFirstViolation(rule, events, owner, endLine, strict, n - 1);
      var before := EventsFindings(events, owner, endLine, strict, n - 1);
      OfRuleAppend(before, EventFindings(events, owner, endLine, strict, n - 1), rule);
      OfRuleInEvent(rule, events, owner, endLine, strict, n - 1);
    }
  }

  lemma NothingSeen(rule: Rule, events: seq<Event>, owner: Function, endLine: nat)
    ensures !Seen(rule, events, owner, endLine, 0)
  {
  }

  // The loops.

  method JudgeEnv(events: seq<Event>, owner: Function, endLine: nat, j: nat, reported: bool, report: Report)
    returns (reported': bool)
    requires j < |events| && Belongs(events[j], owner, endLine)
    requires reported == Seen(EnvRequired, events, owner, endLine, j)
    modifies report
    ensures report.findings == old(report.findings) +
      FindingIf(IsFirst(EnvRequired, events, owner, endLine, j), EnvRequired, events[j], owner)
    ensures reported' == Seen(EnvRequired, events, owner, endLine, j + 1)
  {
    hide Belongs, NeedsEnv;
    reported' := reported;
    if NeedsEnv(events[j]) && !reported {
      var visible := VisibleBefore(events, EnvUse, owner.hasEnvContract, owner, events[j], endLine);
      if !visible {
        report.Add(Finding(EnvRequired, events[j].path, events[j].line, owner.name));
        reported' := true;
      }
    }
  }

  method JudgeError(events: seq<Event>, owner: Function, endLine: nat, j: nat, reported: bool, report: Report)
    returns (reported': bool)
    requires j < |events| && Belongs(events[j], owner, endLine)
    requires reported == Seen(ErrorRequired, events, owner, endLine, j)
    modifies report
    ensures report.findings == old(report.findings) +
      FindingIf(IsFirst(ErrorRequired, events, owner, endLine, j), ErrorRequired, events[j], owner)
    ensures reported' == Seen(ErrorRequired, events, owner, endLine, j + 1)
  {
    hide Belongs, NeedsError, ErrorIsOptional;
    reported' := reported;
    if NeedsError(events[j]) && !reported {
      var visible := VisibleBefore(events, ErrorUse, owner.hasErrorContract, owner, events[j], endLine);
      if !visible {
        var optional := ErrorIsExplicitlyOptional(events, owner, events[j], endLine);
        if !optional {
          report.Add(Finding(ErrorRequired, events[j].path, events[j].line, owner.name));
          reported' := true;
        }
      }
    }
  }

  /** The rules that a declared-optional error silences, without memory. */
  method JudgeOptional(
    events: seq<Event>, owner: Function, endLine: nat, applies: bool, rule: Rule, event: Event, report: Report)
    modifies report
    ensures report.findings == old(report.findings) +
      FindingIf(applies && !ErrorIsOptional(events, owner, event, endLine), rule, event, owner)
  {
    hide ErrorIsOptional;
    if applies {
      var optional := ErrorIsExplicitlyOptional(events, owner, event, endLine);
      if !optional {
        report.Add(Finding(rule, event.path, event.line, owner.name));
      }
    }
  }

  /** One turn of the loop over the events; the flags remember an earlier report. */
  method JudgeEvent(
    events: seq<Event>, owner: Function, endLine: nat, strict: bool, j: nat, envReported: bool, errorReported: bool,
    report: Report)
    returns (envReported': bool, errorReported': bool)
    requires j < |events|
    requires envReported == Seen(EnvRequired, events, owner, endLine, j)
    requires errorReported == Seen(ErrorRequired, events, owner, endLine, j)
    modifies report
    ensures report.findings == old(report.findings) + EventFindings(events, owner, endLine, strict, j)
    ensures envReported' == Seen(EnvRequired, events, owner, endLine, j + 1)
    ensures errorReported' == Seen(ErrorRequired, events, owner, endLine, j + 1)
  {
    hide Belongs, IsDirect, Violates, IsFirst, ErrorIsOptional, FindingIf, Seen;
    var event := events[j];
    envReported', errorReported' := envReported, errorReported;
    SeenStep(EnvRequired, events, owner, endLine, j);
    SeenStep(ErrorRequired, events, owner, endLine, j);
    if !Belongs(event, owner, endLine) {
      return;
    }
    if IsDirect(event, owner) {
      DirectNeedsNothing(EnvRequired, events, owner, endLine, event);
      DirectNeedsNothing(ErrorRequired, events, owner, endLine, event);
      JudgeAlways(Direct(event.kind), event, owner, report);
      return;
    }
    envReported' := JudgeEnv(events, owner, endLine, j, envReported, report);
    errorReported' := JudgeError(events, owner, endLine, j, errorReported, report);
    JudgeOptional(events, owner, endLine, event.kind == ErrorDiscard, ErrorDiscarded, event, report);
    JudgeOptional(events, owner, endLine, strict && event.kind == ErrorUncheckedChain, UncheckedChain, event, report);
  }

  method JudgeAlways(rule: Rule, event: Event, owner: Function, report: Report)
    modifies report
    ensures report.findings == old(report.findings) + FindingIf(true, rule, event, owner)
  {
    report.Add(Finding(rule, event.path, event.line, owner.name));
  }

  lemma SeenStep(rule: Rule, events: seq<Event>, owner: Function, endLine: nat, j: nat)
    requires j < |events|
    ensures !Belongs(events[j], owner, endLine) ==> !Violates(rule, events, owner, endLine, events[j])
    ensures Seen(rule, events, owner, endLine, j + 1) <==>
      Seen(rule, events, owner, endLine, j) || Violates(rule, events, owner, endLine, events[j])
  {
    hide Belongs, NeedsEnv, NeedsError, EnvVisible, ErrorVisible, ErrorIsOptional;
  }

  method AnalyzeEvents(events: seq<Event>, owner: Function, endLine: nat, strict: bool, report: Report)
    modifies report
    ensures report.findings == old(report.findings) + EventsFindings(events, owner, endLine, strict, |events|)
  {
    hide EventFindings, Violates;
    var envReported, errorReported := false, false;
    for j := 0 to |events|
      invariant report.findings == old(report.findings) + EventsFindings(events, owner, endLine, strict, j)
      invariant envReported == Seen(EnvRequired, events, owner, endLine, j)
      invariant errorReported == Seen(ErrorRequired, events, owner, endLine, j)
    {
      envReported, errorReported := JudgeEvent(events, owner, endLine, strict, j, envReported, errorReported, report);
    }
  }

  method AnalyzeExits(events: seq<Event>, owner: Function, endLine: nat, report: Report)
    modifies report
    ensures report.findings == old(report.findings) + ExitFindings(events, owner, endLine)
  {
    hide Exits, ExitSites, FirstEarlyReturn;
    var earlyReturnLine := FunctionEarlyReturnLine(events, owner, endLine);
    if earlyReturnLine != 0 {
      report.Add(Finding(SingleExit, owner.path, earlyReturnLine, owner.name));
    } else {
      var exitCount, secondExitLine := FunctionExitCount(events, owner, endLine);
      if exitCount > 1 {
        report.Add(Finding(SingleExit, owner.path, secondExitLine, owner.name));
      }
    }
  }

  ghost function ModelFindings(
    functions: seq<Function>, events: seq<Event>, strict: bool, sizeMax: nat, n: nat): seq<Finding>
    requires n <= |functions|
  {
    if n == 0 then []
    else
      ModelFindings(functions, events, strict, sizeMax, n - 1)
      + FunctionFindings(events, functions[n - 1], NextLine(functions, functions[n - 1], sizeMax, |functions|), strict)
  }

  /** One finding of the rule, if some event of the function violates it. */
  lemma OneFindingInFunction(rule: Rule, events: seq<Event>, owner: Function, endLine: nat, strict: bool)
    requires rule == EnvRequired || rule == ErrorRequired
    ensures |OfRule(FunctionFindings(events, owner, endLine, strict), rule)| ==
      if Seen(rule, events, owner, endLine, |events|) then 1 else 0
  {
    hide EventsFindings, Seen, IsFirst, FirstEarlyReturn, Exits;
    OneFindingAtFirstViolation(rule, events, owner, endLine, strict, |events|);
    OfRuleAppend(ExitFindings(events, owner, endLine), EventsFindings(events, owner, endLine, strict, |events|), rule);
    assert OfRule(ExitFindings(events, owner, endLine), rule) == [];
  }

  /** Function `i` has an event that violates the rule. */
  ghost predicate HasViolation(rule: Rule, functions: seq<Function>, events: seq<Event>, sizeMax: nat, i: nat)
    requires i < |functions|
  {
    Seen(rule, events, functions[i], NextLine(functions, functions[i], sizeMax, |functions|), |events|)
  }

  ghost function Violating(rule: Rule, functions: seq<Function>, events: seq<Event>, sizeMax: nat, n: nat): set<nat>
    requires n <= |functions|
  {
    set i: nat | i < n && HasViolation(rule, functions, events, sizeMax, i)
  }

  lemma ViolatingStep(rule: Rule, functions: seq<Function>, events: seq<Event>, sizeMax: nat, n: nat)
    requires n < |functions|
    ensures |Violating(rule, functions, events, sizeMax, n + 1)| ==
      |Violating(rule, functions, events, sizeMax, n)| +
        if HasViolation(rule, functions, events, sizeMax, n) then 1 else 0
  {
    hide HasViolation;
    var before := Violating(rule, functions, events, sizeMax, n);
    assert Violating(rule, functions, events, sizeMax, n + 1) ==
      before + if HasViolation(rule, functions, events, sizeMax, n) then {n} else {};
  }

  /** In the whole report the rule has as many findings as there are functions that violate it. */
  lemma {:induction false} FindingsCountViolatingFunctions(
    rule: Rule, functions: seq<Function>, events: seq<Event>, strict: bool, sizeMax: nat, n: nat)
    requires n <= |functions| && (rule == EnvRequired || rule == ErrorRequired)
    ensures |OfRule(ModelFindings(functions, events, strict, sizeMax, n), rule)| ==
      |Violating(rule, functions, events, sizeMax, n)|
  {
    hide FunctionFindings, Seen, NextLine, Violating;
    if n == 0 {
      NobodyViolates(rule, functions, events, sizeMax);
    } else {
      var owner := functions[n - 1];
      var endLine := NextLine(functions, owner, sizeMax, |functions|);
      var before := ModelFindings(functions, events, strict, sizeMax, n - 1);
      FindingsCountViolatingFunctions(rule, functions, events, strict, sizeMax, n - 1);
      OfRuleAppend(before, FunctionFindings(events, owner, endLine, strict), rule);
      OneFindingInFunction(rule, events, owner, endLine, strict);
      ViolatingStep(rule, functions, events, sizeMax, n - 1);
    }
  }

  lemma NobodyViolates(rule: Rule, functions: seq<Function>, events: seq<Event>, sizeMax: nat)
    ensures Violating(rule, functions, events, sizeMax, 0) == {}
  {
  }

  /** `analyze_model`. */
  method AnalyzeModel(functions: seq<Function>, events: seq<Event>, strict: bool, sizeMax: nat, report: Report)
    modifies report
    ensures report.findings == old(report.findings) + ModelFindings(functions, events, strict, sizeMax, |functions|)
  {
    hide IsNextLine, ExitFindings, EventsFindings, NextLine;
    for i := 0 to |functions|
      invariant report.findings == old(report.findings) + ModelFindings(functions, events, strict, sizeMax, i)
    {
      var endLine := NextFunctionLine(functions, functions[i], sizeMax);
      AnalyzeExits(events, functions[i], endLine, report);
      AnalyzeEvents(events, functions[i], endLine, strict, report);
    }
  }
}
