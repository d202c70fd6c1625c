/** What the findings of the error-contract engine say about events, in terms of their fields. */
module ContractMeaning {
  import opened CStrings
  import opened ContractModel
  import opened ErrorContract

  /** By offsets when both have one, else by lines. */
  predicate ComesAfter(later: Event, event: Event) {
    (later.start != 0 && event.start != 0 && later.start > event.start)
    || ((later.start == 0 || event.start == 0) && later.line > event.line)
  }

  /** An event of the function violates the env rule exactly when it traces or calls with an env, the function declares
      no env, and every use of one in the function comes after it. */
  lemma EnvViolatedIff(events: seq<Event>, owner: Function, endLine: nat, event: Event)
    requires Belongs(event, owner, endLine)
    ensures Violates(EnvRequired, events, owner, endLine, event) <==>
      && (event.kind == TraceUse || (event.kind == Call && event.needsEnv))
      && !owner.hasEnvContract
      && forall use :: use in events && use.kind == EnvUse && Belongs(use, owner, endLine) ==> ComesAfter(use, event)
  {
    hide Belongs;
    UsedIff(events, EnvUse, owner, event, endLine);
  }

  /** The error rule, and its exemption: a note at the event's line, offset and caller in the same function. */
  lemma ErrorViolatedIff(events: seq<Event>, owner: Function, endLine: nat, event: Event)
    requires Belongs(event, owner, endLine)
    ensures Violates(ErrorRequired, events, owner, endLine, event) <==>
      && (event.kind == ErrorCheck || (event.kind == Call && event.needsError))
      && !owner.hasErrorContract
      && (forall use :: use in events && use.kind == ErrorUse && Belongs(use, owner, endLine) ==>
            ComesAfter(use, event))
      && !exists note :: note in events && IsExemption(note, event) && Belongs(note, owner, endLine)
  {
    hide Belongs;
    UsedIff(events, ErrorUse, owner, event, endLine);
    if note :| note in events && IsExemption(note, event) && Belongs(note, owner, endLine) {
      var k :| 0 <= k < |events| && events[k] == note;
    }
  }

  predicate IsExemption(note: Event, event: Event) {
    note.kind == ErrorOptional
    && note.line == event.line && note.start == event.start && note.callerUsr == event.callerUsr
  }

  lemma UsedIff(events: seq<Event>, kind: EventKind, owner: Function, event: Event, endLine: nat)
    ensures !UsedBy(events, kind, owner, event, endLine) <==>
      forall use :: use in events && use.kind == kind && Belongs(use, owner, endLine) ==> ComesAfter(use, event)
  {
    hide Belongs;
    if UsedBy(events, kind, owner, event, endLine) {
      var k :| 0 <= k < |events| && IsUse(events[k], kind, owner, event, endLine);
      assert events[k] in events;
    }
    forall use | use in events && use.kind == kind && Belongs(use, owner, endLine) && !ComesAfter(use, event)
      ensures UsedBy(events, kind, owner, event, endLine)
    {
      var k :| 0 <= k < |events| && events[k] == use;
      assert IsUse(events[k], kind, owner, event, endLine);
    }
  }

  /** The distinct exit sites are those of the returns and process terminations of the function. */
  lemma ExitSiteIff(events: seq<Event>, owner: Function, endLine: nat, site: Site)
    ensures site in ExitSites(events, owner, endLine, |events|) <==>
      exists event :: event in events && Belongs(event, owner, endLine) && EndsAt(event, site)
  {
    hide Belongs;
    if event :| event in events && Belongs(event, owner, endLine) && EndsAt(event, site) {
      var k :| 0 <= k < |events| && events[k] == event;
      assert IsExit(events[k], owner, endLine) && SiteOf(events[k]) == site;
    }
  }

  predicate EndsAt(event: Event, site: Site) {
    (event.kind == FunctionReturn || event.kind == ProcessTermination)
    && site == Site(event.kind, event.line, event.start, event.path, event.callerUsr)
  }

  // What is reported as it is.

  const REPORTED_KINDS: set<EventKind> := {
    CallNotIsolated, ErrorOutputUnchecked, MustCheckResultDiscarded, ErrorCleanupShadow, PartialResultDiscarded,
    UncertainProgressRetried, ConditionWaitOutsideLoop, PostForkUnsafeCall, ZeroSizeAllocation,
    OverlappingRestrictedCopy, ThreadAutomaticStorageEscape, EnvBorrowedPointerInvalidated, PathToctou, RecursiveCall
  }

  /** Terminating the process is reported outside `main` and the declared adapters; the other kinds always are. */
  predicate IsReported(event: Event, owner: Function) {
    event.kind in REPORTED_KINDS
    || (event.kind == ProcessTermination && owner.usr != "c:@F@main" && !owner.isTerminationAdapter)
  }

  lemma ReportedIffDirect(event: Event, owner: Function)
    ensures IsReported(event, owner) <==> IsDirect(event, owner)
  {
  }

  /** A finding of a direct rule is in the report of a function if and only if one of its events is reported so. */
  lemma {:induction false} DirectFindingIff(
    events: seq<Event>, owner: Function, endLine: nat, strict: bool, n: nat, kind: EventKind, finding: Finding)
    requires n <= |events| && finding.rule == Direct(kind)
    ensures finding in EventsFindings(events, owner, endLine, strict, n) <==>
      exists k :: 0 <= k < n && IsSource(events[k], owner, endLine, kind, finding)
  {
    hide IsSource, EventFindings;
    if n > 0 {
      DirectFindingIff(events, owner, endLine, strict, n - 1, kind, finding);
      OneDirectFinding(events, owner, endLine, strict, n - 1, kind, finding);
    }
  }

  predicate IsSource(event: Event, owner: Function, endLine: nat, kind: EventKind, finding: Finding) {
    && event.kind == kind && Belongs(event, owner, endLine) && IsReported(event, owner)
    && finding.path == event.path && finding.line == event.line && finding.functionName == owner.name
  }

  lemma OneDirectFinding(
    events: seq<Event>, owner: Function, endLine: nat, strict: bool, k: nat, kind: EventKind, finding: Finding)
    requires k < |events| && finding.rule == Direct(kind)
    ensures finding in EventFindings(events, owner, endLine, strict, k) <==>
      IsSource(events[k], owner, endLine, kind, finding)
  {
    ReportedIffDirect(events[k], owner);
    hide Belongs, IsReported, IsDirect, IsFirst, ErrorIsOptional;
  }

  // What a declared-optional error silences.

  /** A discarded error, or in strict mode an unchecked chain, of the function and without an exemption. */
  predicate IsSilenceable(
    events: seq<Event>, owner: Function, endLine: nat, strict: bool, event: Event, finding: Finding)
  {
    && Belongs(event, owner, endLine)
    && (event.kind == if finding.rule == ErrorDiscarded then ErrorDiscard else ErrorUncheckedChain)
    && (finding.rule == UncheckedChain ==> strict)
    && finding.path == event.path && finding.line == event.line && finding.functionName == owner.name
    && !exists note :: note in events && IsExemption(note, event) && Belongs(note, owner, endLine)
  }

  lemma {:induction false} SilenceableFindingIff(
    events: seq<Event>, owner: Function, endLine: nat, strict: bool, n: nat, finding: Finding)
    requires n <= |events| && (finding.rule == ErrorDiscarded || finding.rule == UncheckedChain)
    ensures finding in EventsFindings(events, owner, endLine, strict, n) <==>
      exists k :: 0 <= k < n && IsSilenceable(events, owner, endLine, strict, events[k], finding)
  {
    hide IsSilenceable, EventFindings;
    if n > 0 {
      SilenceableFindingIff(events, owner, endLine, strict, n - 1, finding);
      OneSilenceableFinding(events, owner, endLine, strict, n - 1, finding);
    }
  }

  lemma OneSilenceableFinding(
    events: seq<Event>, owner: Function, endLine: nat, strict: bool, k: nat, finding: Finding)
    requires k < |events| && (finding.rule == ErrorDiscarded || finding.rule == UncheckedChain)
    ensures finding in EventFindings(events, owner, endLine, strict, k) <==>
      IsSilenceable(events, owner, endLine, strict, events[k], finding)
  {
    hide Belongs, IsFirst;
    if note :| note in events && IsExemption(note, events[k]) && Belongs(note, owner, endLine) {
      var j :| 0 <= j < |events| && events[j] == note;
    }
  }

  // What the single-exit rule reports.

  /** A return or process termination of the function. */
  predicate IsEnd(event: Event, owner: Function, endLine: nat) {
    Belongs(event, owner, endLine) && (event.kind == FunctionReturn || event.kind == ProcessTermination)
  }

  /** The events differ in what tells exits apart. */
  predicate AreApart(a: Event, b: Event) {
    a.kind != b.kind || a.line != b.line || a.start != b.start || a.path != b.path || a.callerUsr != b.callerUsr
  }

  /** Event `j` is an exit that no exit among the first `n` events is apart from. */
  ghost predicate IsOnlyExit(events: seq<Event>, owner: Function, endLine: nat, n: nat, j: nat)
    requires n <= |events|
  {
    && j < n && IsEnd(events[j], owner, endLine)
    && forall i :: 0 <= i < n && IsEnd(events[i], owner, endLine) ==> !AreApart(events[i], events[j])
  }

  /** The first exit that is apart from an exit before it. */
  ghost predicate IsSecondExit(events: seq<Event>, owner: Function, endLine: nat, k: nat) {
    && k < |events| && IsEnd(events[k], owner, endLine)
    && exists j: nat :: IsOnlyExit(events, owner, endLine, k, j) && AreApart(events[j], events[k])
  }

  predicate IsEarlyReturn(event: Event, owner: Function, endLine: nat) {
    event.kind == FunctionEarlyReturn && Belongs(event, owner, endLine)
  }

  ghost predicate IsFirstEarlyReturn(events: seq<Event>, owner: Function, endLine: nat, k: nat) {
    && k < |events| && IsEarlyReturn(events[k], owner, endLine)
    && forall j :: 0 <= j < k ==> !IsEarlyReturn(events[j], owner, endLine)
  }

  /** Among the first `n` events there is no exit, or one, or two and more. */
  ghost predicate HaveShape(events: seq<Event>, owner: Function, endLine: nat, n: nat, exits: seq<Event>)
    requires n <= |events|
  {
    if |exits| == 0 then forall i :: 0 <= i < n ==> !IsEnd(events[i], owner, endLine)
    else if |exits| == 1 then exists j: nat :: IsOnlyExit(events, owner, endLine, n, j) && exits[0] == events[j]
    else exists k: nat :: k < n && IsSecondExit(events, owner, endLine, k) && exits[1] == events[k]
  }

  lemma {:induction false} ExitsShape(events: seq<Event>, owner: Function, endLine: nat, n: nat)
    requires n <= |events|
    ensures HaveShape(events, owner, endLine, n, Exits(events, owner, endLine, n))
  {
    hide HaveShape, IsExit, IsRepeated;
    if n == 0 {
      NoShape(events, owner, endLine);
    } else {
      ExitsShape(events, owner, endLine, n - 1);
      var exits := Exits(events, owner, endLine, n - 1);
      if !IsExit(events[n - 1], owner, endLine) || IsRepeated(events, n - 1) {
        assert exits + [] == exits;
        ShapeStays(events, owner, endLine, n - 1, exits);
      } else {
        ShapeGrows(events, owner, endLine, n - 1, exits);
      }
    }
  }

  lemma NoShape(events: seq<Event>, owner: Function, endLine: nat)
    ensures HaveShape(events, owner, endLine, 0, [])
  {
  }

  lemma ShapeStays(events: seq<Event>, owner: Function, endLine: nat, n: nat, exits: seq<Event>)
    requires n < |events| && HaveShape(events, owner, endLine, n, exits)
    requires !IsExit(events[n], owner, endLine) || IsRepeated(events, n)
    ensures HaveShape(events, owner, endLine, n + 1, exits)
  {
    hide IsSecondExit;
    var end := IsEnd(events[n], owner, endLine);
    if end {
      var i :| 0 <= i < n && SiteOf(events[i]) == SiteOf(events[n]);
      assert IsEnd(events[i], owner, endLine);
    }
    hide Belongs;
    if |exits| == 1 {
      var j: nat :| IsOnlyExit(events, owner, endLine, n, j) && exits[0] == events[j];
      assert IsOnlyExit(events, owner, endLine, n + 1, j);
    }
  }

  lemma ShapeGrows(events: seq<Event>, owner: Function, endLine: nat, n: nat, exits: seq<Event>)
    requires n < |events| && HaveShape(events, owner, endLine, n, exits)
    requires IsExit(events[n], owner, endLine) && !IsRepeated(events, n)
    ensures HaveShape(events, owner, endLine, n + 1, exits + [events[n]])
  {
    hide Belongs;
    if |exits| == 0 {
      assert IsOnlyExit(events, owner, endLine, n + 1, n);
    } else if |exits| == 1 {
      var j: nat :| IsOnlyExit(events, owner, endLine, n, j) && exits[0] == events[j];
      assert SiteOf(events[j]) != SiteOf(events[n]);
      assert IsSecondExit(events, owner, endLine, n);
    }
  }

  lemma OneSecondExit(events: seq<Event>, owner: Function, endLine: nat, k: nat, k': nat)
    requires IsSecondExit(events, owner, endLine, k) && IsSecondExit(events, owner, endLine, k')
    ensures k == k'
  {
    hide Belongs;
  }

  /** The first early return, when it has a line, and otherwise the second exit. */
  lemma ExitFindingIff(events: seq<Event>, owner: Function, endLine: nat, finding: Finding)
    ensures finding in ExitFindings(events, owner, endLine) <==>
      && finding.rule == SingleExit && finding.path == owner.path && finding.functionName == owner.name
      && if exists k: nat :: IsFirstEarlyReturn(events, owner, endLine, k) && events[k].line != 0
        then exists k: nat :: IsFirstEarlyReturn(events, owner, endLine, k) && events[k].line == finding.line
        else exists k: nat :: IsSecondExit(events, owner, endLine, k) && events[k].line == finding.line
  {
    hide Belongs, Exits, IsSecondExit;
    ExitsShape(events, owner, endLine, |events|);
    var early := FirstEarlyReturn(events, owner, endLine);
    forall k: nat | IsFirstEarlyReturn(events, owner, endLine, k)
      ensures k == early
    {
    }
    forall k: nat, k': nat | IsSecondExit(events, owner, endLine, k) && IsSecondExit(events, owner, endLine, k')
      ensures k == k'
    {
      OneSecondExit(events, owner, endLine, k, k');
    }
    var exits := Exits(events, owner, endLine, |events|);
    if |exits| <= 1 {
      forall k: nat
        ensures !IsSecondExit(events, owner, endLine, k)
      {
        NoSecondExit(events, owner, endLine, k);
      }
    }
  }

  lemma NoSecondExit(events: seq<Event>, owner: Function, endLine: nat, k: nat)
    requires |Exits(events, owner, endLine, |events|)| <= 1
    ensures !IsSecondExit(events, owner, endLine, k)
  {
    hide Belongs, Exits;
    ExitsShape(events, owner, endLine, |events|);
  }

  // The whole report.

  /** A finding is in the report if and only if it is about one of the functions. */
  lemma {:induction false} ReportedIff(
    functions: seq<Function>, events: seq<Event>, strict: bool, sizeMax: nat, n: nat, finding: Finding)
    requires n <= |functions|
    ensures finding in ModelFindings(functions, events, strict, sizeMax, n) <==>
      exists i :: 0 <= i < n &&
        var owner, endLine := functions[i], NextLine(functions, functions[i], sizeMax, |functions|);
        finding in ExitFindings(events, owner, endLine)
        || finding in EventsFindings(events, owner, endLine, strict, |events|)
  {
    hide ExitFindings, EventsFindings, NextLine;
    if n > 0 {
      ReportedIff(functions, events, strict, sizeMax, n - 1, finding);
    }
  }
}
