/** Signal safety: what a registered handler can reach must neither touch shared objects nor call unsafe operations. */
module SignalHandlers {
  import opened CStrings
  import opened ContractModel
  import opened Graph

  /** The call that event `k` records, when both ends are scanned functions. */
  predicate IsResolvedCall(functions: seq<Function>, event: Event) {
    && event.kind == Call
    && IndexByUsr(functions, event.callerUsr) < |functions|
    && IndexByUsr(functions, event.usr) < |functions|
  }

  ghost function CallEdges(functions: seq<Function>, events: seq<Event>): Edges {
    set event | event in events && IsResolvedCall(functions, event) ::
      (IndexByUsr(functions, event.callerUsr), IndexByUsr(functions, event.usr))
  }

  predicate Registers(functions: seq<Function>, event: Event, i: nat) {
    event.kind == SignalHandlerRegistered && IndexByUsr(functions, event.callerUsr) == i
  }

  ghost predicate IsHandler(functions: seq<Function>, events: seq<Event>, i: nat) {
    exists event :: event in events && Registers(functions, event, i)
  }

  /** A chain of recorded calls leads from a registered handler to function `i`. */
  ghost predicate SignalReachable(functions: seq<Function>, events: seq<Event>, i: nat) {
    exists h: nat :: h < |functions| && IsHandler(functions, events, h) && Reaches(CallEdges(functions, events), h, i)
  }

  predicate IsUnsafe(functions: seq<Function>, safeCalls: seq<Text>, event: Event) {
    event.kind == Call && IndexByUsr(functions, event.usr) == |functions| && event.usr !in safeCalls
  }

  /** What one event contributes to the report. */
  ghost function SignalFinding(
    functions: seq<Function>, events: seq<Event>, safeCalls: seq<Text>, event: Event): seq<Finding>
  {
    var caller := IndexByUsr(functions, event.callerUsr);
    if caller == |functions| || !SignalReachable(functions, events, caller) then []
    else if event.kind == SignalSharedObjectAccess then
      [Finding(SignalSharedObject, event.path, event.line, functions[caller].name)]
    else if IsUnsafe(functions, safeCalls, event) then
      [Finding(SignalUnsafeCall, event.path, event.line, functions[caller].name)]
    else []
  }

  ghost function SignalFindings(
    functions: seq<Function>, events: seq<Event>, safeCalls: seq<Text>, n: nat): seq<Finding>
    requires n <= |events|
  {
    if n == 0 then []
    else
      SignalFindings(functions, events, safeCalls, n - 1) + SignalFinding(functions, events, safeCalls, events[n - 1])
  }

  /** The event's caller is reachable from a handler, and the event is the offence that the finding names. */
  ghost predicate Offends(
    functions: seq<Function>, events: seq<Event>, safeCalls: seq<Text>, event: Event, finding: Finding)
  {
    var caller := IndexByUsr(functions, event.callerUsr);
    && caller < |functions| && SignalReachable(functions, events, caller)
    && finding.path == event.path && finding.line == event.line && finding.functionName == functions[caller].name
    && ((finding.rule == SignalSharedObject && event.kind == SignalSharedObjectAccess)
        || (finding.rule == SignalUnsafeCall && IsUnsafe(functions, safeCalls, event)))
  }

  lemma OneFinding(functions: seq<Function>, events: seq<Event>, safeCalls: seq<Text>, event: Event, finding: Finding)
    ensures finding in SignalFinding(functions, events, safeCalls, event) <==>
      Offends(functions, events, safeCalls, event, finding)
  {
    hide SignalReachable, IndexByUsr;
  }

  /** Reported if and only if some event offends. */
  lemma {:induction false} SignalFindingsAreExact(
    functions: seq<Function>, events: seq<Event>, safeCalls: seq<Text>, n: nat, finding: Finding)
    requires n <= |events|
    ensures finding in SignalFindings(functions, events, safeCalls, n) <==>
      exists k :: 0 <= k < n && Offends(functions, events, safeCalls, events[k], finding)
  {
    hide Offends, SignalFinding;
    if n > 0 {
      SignalFindingsAreExact(functions, events, safeCalls, n - 1, finding);
      OneFinding(functions, events, safeCalls, events[n - 1], finding);
    }
  }

  // The same in the fields of functions and events.

  /** Function `i` is the first with this identity. */
  predicate IsNamed(functions: seq<Function>, usr: Text, i: nat) {
    && i < |functions| && usr != [] && functions[i].usr == usr
    && forall k :: 0 <= k < i ==> functions[k].usr != usr
  }

  lemma NamedIff(functions: seq<Function>, usr: Text, i: nat)
    ensures IsNamed(functions, usr, i) <==> i < |functions| && IndexByUsr(functions, usr) == i
    ensures IndexByUsr(functions, usr) == |functions| <==>
      usr == [] || forall f :: f in functions ==> f.usr != usr
  {
    var index := IndexByUsr(functions, usr);
    if IsNamed(functions, usr, i) {
      assert index <= i;
    }
    if index < |functions| {
      assert functions[index] in functions;
    }
  }

  /** Unsafe are the calls of no scanned function that the table does not list. */
  lemma UnsafeIff(functions: seq<Function>, safeCalls: seq<Text>, event: Event)
    ensures IsUnsafe(functions, safeCalls, event) <==>
      && event.kind == Call && (forall k :: 0 <= k < |safeCalls| ==> safeCalls[k] != event.usr)
      && (event.usr == [] || forall f :: f in functions ==> f.usr != event.usr)
  {
    hide IndexByUsr;
    NamedIff(functions, event.usr, 0);
  }

  lemma HandlerIff(functions: seq<Function>, events: seq<Event>, i: nat)
    requires i < |functions|
    ensures IsHandler(functions, events, i) <==>
      exists event :: event in events && event.kind == SignalHandlerRegistered && IsNamed(functions, event.callerUsr, i)
  {
    hide IndexByUsr, IsNamed;
    forall event | event in events
      ensures IsNamed(functions, event.callerUsr, i) <==> IndexByUsr(functions, event.callerUsr) == i
    {
      NamedIff(functions, event.callerUsr, i);
    }
    if IsHandler(functions, events, i) {
      var event :| event in events && Registers(functions, event, i);
      assert IsNamed(functions, event.callerUsr, i);
    }
    if event :| event in events && event.kind == SignalHandlerRegistered && IsNamed(functions, event.callerUsr, i) {
      assert Registers(functions, event, i);
    }
  }

  lemma CallEdgeIff(functions: seq<Function>, events: seq<Event>, i: nat, j: nat)
    ensures (i, j) in CallEdges(functions, events) <==>
      exists event :: event in events && event.kind == Call
        && IsNamed(functions, event.callerUsr, i) && IsNamed(functions, event.usr, j)
  {
    hide IndexByUsr, IsNamed;
    forall event | event in events
      ensures IsNamed(functions, event.callerUsr, i) <==>
        i < |functions| && IndexByUsr(functions, event.callerUsr) == i
      ensures IsNamed(functions, event.usr, j) <==> j < |functions| && IndexByUsr(functions, event.usr) == j
    {
      NamedIff(functions, event.callerUsr, i);
      NamedIff(functions, event.usr, j);
    }
  }

  /** More safe calls only remove findings of unsafe calls. */
  lemma MoreSafeCallsReportLess(
    functions: seq<Function>, events: seq<Event>, safeCalls: seq<Text>, wider: seq<Text>, finding: Finding)
    requires forall usr :: usr in safeCalls ==> usr in wider
    requires finding in SignalFindings(functions, events, wider, |events|)
    ensures finding in SignalFindings(functions, events, safeCalls, |events|)
  {
    hide SignalFindings, SignalReachable, IndexByUsr;
    SignalFindingsAreExact(functions, events, wider, |events|, finding);
    SignalFindingsAreExact(functions, events, safeCalls, |events|, finding);
    var k :| 0 <= k < |events| && Offends(functions, events, wider, events[k], finding);
    UnsafeIff(functions, wider, events[k]);
    UnsafeIff(functions, safeCalls, events[k]);
    assert Offends(functions, events, safeCalls, events[k], finding);
  }

  /** Listing the operation of an unsafe call is what silences it, and nothing silences a shared access. */
  lemma OnlyListedCallsAreSilenced(
    functions: seq<Function>, events: seq<Event>, safeCalls: seq<Text>, wider: seq<Text>, event: Event,
    finding: Finding)
    requires forall usr :: usr in safeCalls ==> usr in wider
    requires Offends(functions, events, safeCalls, event, finding)
    ensures Offends(functions, events, wider, event, finding) <==>
      finding.rule == SignalSharedObject || event.usr !in wider
  {
    hide SignalReachable, IndexByUsr;
    UnsafeIff(functions, wider, event);
    UnsafeIff(functions, safeCalls, event);
  }

  // The closure loop.

  ghost predicate CoversHandlers(functions: seq<Function>, events: seq<Event>, reachable: seq<bool>, n: nat)
    requires |reachable| == |functions| && n <= |events|
  {
    forall k :: 0 <= k < n && events[k].kind == SignalHandlerRegistered ==>
      var i := IndexByUsr(functions, events[k].callerUsr); i < |functions| ==> reachable[i]
  }

  ghost predicate Justified(functions: seq<Function>, events: seq<Event>, reachable: seq<bool>)
    requires |reachable| == |functions|
  {
    forall i :: 0 <= i < |reachable| && reachable[i] ==> SignalReachable(functions, events, i)
  }

  ghost predicate Settled(functions: seq<Function>, events: seq<Event>, reachable: seq<bool>, n: nat)
    requires |reachable| == |functions| && n <= |events|
  {
    forall k :: 0 <= k < n && IsResolvedCall(functions, events[k]) ==>
      reachable[IndexByUsr(functions, events[k].callerUsr)] ==> reachable[IndexByUsr(functions, events[k].usr)]
  }

  lemma SettledIsReachable(functions: seq<Function>, events: seq<Event>, reachable: seq<bool>)
    requires |reachable| == |functions|
    requires CoversHandlers(functions, events, reachable, |events|) && Justified(functions, events, reachable)
    requires Settled(functions, events, reachable, |events|)
    ensures forall i :: 0 <= i < |functions| ==> (reachable[i] <==> SignalReachable(functions, events, i))
  {
    forall i | 0 <= i < |functions| && SignalReachable(functions, events, i)
      ensures reachable[i]
    {
      var edges := CallEdges(functions, events);
      var closed := iset n: nat | n < |reachable| && reachable[n];
      var h: nat :| h < |functions| && IsHandler(functions, events, h) && Reaches(edges, h, i);
      ForwardClosed(edges, closed, h, i);
    }
  }

  lemma MarkedCalleeIsReachable(functions: seq<Function>, events: seq<Event>, event: Event)
    requires event in events && IsResolvedCall(functions, event)
    requires SignalReachable(functions, events, IndexByUsr(functions, event.callerUsr))
    ensures SignalReachable(functions, events, IndexByUsr(functions, event.usr))
  {
    var edges := CallEdges(functions, events);
    var caller, callee := IndexByUsr(functions, event.callerUsr), IndexByUsr(functions, event.usr);
    var h: nat :| h < |functions| && IsHandler(functions, events, h) && Reaches(edges, h, caller);
    ReachesAfter(edges, h, caller, callee);
  }

  lemma HandlerIsReachable(functions: seq<Function>, events: seq<Event>, i: nat)
    requires i < |functions| && IsHandler(functions, events, i)
    ensures SignalReachable(functions, events, i)
  {
    ReachesSelf(CallEdges(functions, events), i);
  }

  function Unmarked(reachable: seq<bool>): (count: nat) {
    if reachable == [] then 0 else Unmarked(reachable[..|reachable| - 1]) + if reachable[|reachable| - 1] then 0 else 1
  }

  lemma {:induction false} UnmarkedAfterMark(reachable: seq<bool>, i: nat)
    requires i < |reachable| && !reachable[i]
    ensures Unmarked(reachable[i := true]) < Unmarked(reachable)
  {
    var n := |reachable| - 1;
    if i == n {
      assert reachable[i := true][..n] == reachable[..n];
    } else {
      assert reachable[i := true][..n] == reachable[..n][i := true];
      UnmarkedAfterMark(reachable[..n], i);
    }
  }

  method MarkHandlers(functions: seq<Function>, events: seq<Event>, reachable: array<bool>)
    requires reachable.Length == |functions| && forall i :: 0 <= i < reachable.Length ==> !reachable[i]
    modifies reachable
    ensures CoversHandlers(functions, events, reachable[..], |events|) && Justified(functions, events, reachable[..])
  {
    hide SignalReachable;
    for index := 0 to |events|
      invariant CoversHandlers(functions, events, reachable[..], index) && Justified(functions, events, reachable[..])
    {
      var event := events[index];
      if event.kind == SignalHandlerRegistered {
        var functionIndex := FunctionIndexByUsr(functions, event.callerUsr);
        if functionIndex < |functions| {
          assert event in events && Registers(functions, event, functionIndex);
          HandlerIsReachable(functions, events, functionIndex);
          reachable[functionIndex] := true;
        }
      }
    }
  }

  /** One turn of the outer loop. */
  method Pass(functions: seq<Function>, events: seq<Event>, reachable: array<bool>) returns (changed: bool)
    requires reachable.Length == |functions|
    requires CoversHandlers(functions, events, reachable[..], |events|) && Justified(functions, events, reachable[..])
    modifies reachable
    ensures CoversHandlers(functions, events, reachable[..], |events|) && Justified(functions, events, reachable[..])
    ensures if changed then Unmarked(reachable[..]) < Unmarked(old(reachable[..]))
            else reachable[..] == old(reachable[..]) && Settled(functions, events, reachable[..], |events|)
  {
    hide SignalReachable, Unmarked;
    changed := false;
    for index := 0 to |events|
      invariant CoversHandlers(functions, events, reachable[..], |events|)
      invariant Justified(functions, events, reachable[..])
      invariant if changed then Unmarked(reachable[..]) < Unmarked(old(reachable[..]))
                else reachable[..] == old(reachable[..]) && Settled(functions, events, reachable[..], index)
    {
      var event := events[index];
      if event.kind != Call {
        continue;
      }
      var caller := FunctionIndexByUsr(functions, event.callerUsr);
      var callee := FunctionIndexByUsr(functions, event.usr);
      if caller < |functions| && reachable[caller] && callee < |functions| && !reachable[callee] {
        MarkedCalleeIsReachable(functions, events, event);
        UnmarkedAfterMark(reachable[..], callee);
        reachable[callee] := true;
        changed := true;
      }
    }
  }

  method CallIsSafe(safeCalls: seq<Text>, usr: Text) returns (safe: bool)
    ensures safe == (usr in safeCalls)
  {
    safe := false;
    var index := 0;
    while index < |safeCalls| && !safe
      invariant 0 <= index <= |safeCalls| && safe == (usr in safeCalls[..index])
    {
      safe := usr == safeCalls[index];
      index := index + 1;
    }
    assert !safe ==> safeCalls[..index] == safeCalls;
  }

  method Close(functions: seq<Function>, events: seq<Event>) returns (reachable: array<bool>)
    ensures fresh(reachable) && reachable.Length == |functions|
    ensures forall i :: 0 <= i < |functions| ==> (reachable[i] <==> SignalReachable(functions, events, i))
  {
    hide *;
    reachable := new bool[|functions|](_ => false);
    MarkHandlers(functions, events, reachable);
    var changed := true;
    while changed
      invariant CoversHandlers(functions, events, reachable[..], |events|)
      invariant Justified(functions, events, reachable[..])
      invariant !changed ==> Settled(functions, events, reachable[..], |events|)
      decreases Unmarked(reachable[..]), changed
    {
      changed := Pass(functions, events, reachable);
    }
    SettledIsReachable(functions, events, reachable[..]);
  }

  /** `analyze_signal_handlers`; `safeCalls` is its table of async-signal-safe operations. */
  method AnalyzeSignalHandlers(functions: seq<Function>, events: seq<Event>, safeCalls: seq<Text>, report: Report)
    modifies report
    ensures report.findings == old(report.findings) + SignalFindings(functions, events, safeCalls, |events|)
  {
    hide SignalReachable, IndexByUsr, SignalFinding;
    var reachable := Close(functions, events);
    for index := 0 to |events|
      invariant forall i :: 0 <= i < |functions| ==> (reachable[i] <==> SignalReachable(functions, events, i))
      invariant report.findings == old(report.findings) + SignalFindings(functions, events, safeCalls, index)
    {
      JudgeSignalEvent(functions, events, safeCalls, events[index], reachable, report);
    }
  }

  /** One turn of the last loop. */
  method JudgeSignalEvent(
    functions: seq<Function>, events: seq<Event>, safeCalls: seq<Text>, event: Event, reachable: array<bool>,
    report: Report)
    requires reachable.Length == |functions|
    requires forall i :: 0 <= i < |functions| ==> (reachable[i] <==> SignalReachable(functions, events, i))
    modifies report
    ensures report.findings == old(report.findings) + SignalFinding(functions, events, safeCalls, event)
  {
    hide SignalReachable, IndexByUsr;
    var caller := FunctionIndexByUsr(functions, event.callerUsr);
    if caller >= |functions| || !reachable[caller] {
      return;
    }
    if event.kind == SignalSharedObjectAccess {
      report.Add(Finding(SignalSharedObject, event.path, event.line, functions[caller].name));
    } else if event.kind == Call {
      var callee := FunctionIndexByUsr(functions, event.usr);
      var safe := CallIsSafe(safeCalls, event.usr);
      if callee >= |functions| && !safe {
        report.Add(Finding(SignalUnsafeCall, event.path, event.line, functions[caller].name));
      }
    }
  }
}
