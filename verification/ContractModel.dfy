/** The facts of the error-contract engine, its findings, and how events belong to functions. */
module ContractModel {
  import opened CStrings

  datatype EventKind =
    | Call | EnvUse | ErrorUse | TraceUse | ErrorCheck | ErrorOptional | ErrorDiscard | ErrorPropagated
    | ErrorUncheckedChain | ErrorOutputUnchecked | ProcessTermination | FunctionReturn | FunctionEarlyReturn
    | CallNotIsolated | MustCheckResultDiscarded | ErrorCleanupShadow | PartialResultDiscarded
    | UncertainProgressRetried | ConditionWaitOutsideLoop | PostForkUnsafeCall | ZeroSizeAllocation
    | OverlappingRestrictedCopy | ThreadAutomaticStorageEscape | EnvBorrowedPointerInvalidated | PathToctou
    | SignalHandlerRegistered | SignalSharedObjectAccess | RecursiveCall

  /** The findings' rules.  `Direct(kind)` is the rule that reports events of that kind as they are. */
  datatype Rule =
    | Direct(kind: EventKind) | SingleExit | EnvRequired | ErrorRequired | ErrorDiscarded | UncheckedChain
    | SignalSharedObject | SignalUnsafeCall

  datatype Function = Function(
    path: Text,
    name: Text,
    usr: Text,
    line: nat,
    start: nat,
    end: nat,
    hasEnvContract: bool,
    hasErrorContract: bool,
    isTerminationAdapter: bool)

  datatype Event = Event(
    kind: EventKind,
    path: Text,
    usr: Text,
    callerUsr: Text,
    line: nat,
    start: nat,
    needsEnv: bool,
    needsError: bool)

  datatype Finding = Finding(rule: Rule, path: Text, line: nat, functionName: Text)

  /** The report collects findings in the order in which they are made. */
  class Report {
    var findings: seq<Finding>

    constructor ()
      ensures findings == []
    {
      findings := [];
    }

    method Add(finding: Finding)
      modifies this
      ensures findings == old(findings) + [finding]
    {
      findings := findings + [finding];
    }
  }

  /** The first function with this identity, or the number of functions. */
  function IndexByUsr(functions: seq<Function>, usr: Text, from: nat := 0): (index: nat)
    requires from <= |functions|
    ensures from <= index <= |functions|
    ensures index < |functions| ==> usr != [] && functions[index].usr == usr
    ensures forall k :: from <= k < index ==> usr == [] || functions[k].usr != usr
    decreases |functions| - from
  {
    if from == |functions| || (usr != [] && functions[from].usr == usr) then from
    else IndexByUsr(functions, usr, from + 1)
  }

  method FunctionIndexByUsr(functions: seq<Function>, usr: Text) returns (index: nat)
    ensures index == IndexByUsr(functions, usr)
  {
    index := |functions|;
    if usr == [] {
      EmptyHasNoIndex(functions, 0);
      return;
    }
    for candidate := 0 to |functions|
      invariant IndexByUsr(functions, usr) == IndexByUsr(functions, usr, candidate)
    {
      if functions[candidate].usr == usr {
        return candidate;
      }
    }
  }

  lemma EmptyHasNoIndex(functions: seq<Function>, from: nat)
    requires from <= |functions|
    ensures IndexByUsr(functions, [], from) == |functions|
  {
  }
}
