/** The capability analysis: which instrumentation every function performs, directly or through the functions of its
    own repository that it calls. */
module Instrumentation {
  import opened CStrings
  import opened Bits
  import opened Facts
  import opened Graph
  import opened HashIndex

  datatype Flag = TraceEntry | TraceExit | Fault | Fd | Allocation | Resource

  datatype Capabilities = Capabilities(
    traceEntry: bool, traceExit: bool, fault: bool, fd: bool, allocation: bool, resource: bool)
  {
    predicate Has(flag: Flag) {
      match flag
      case TraceEntry => traceEntry
      case TraceExit => traceExit
      case Fault => fault
      case Fd => fd
      case Allocation => allocation
      case Resource => resource
    }

    function With(flag: Flag): Capabilities {
      match flag
      case TraceEntry => this.(traceEntry := true)
      case TraceExit => this.(traceExit := true)
      case Fault => this.(fault := true)
      case Fd => this.(fd := true)
      case Allocation => this.(allocation := true)
      case Resource => this.(resource := true)
    }

    function MissingFlags(): (count: nat)
      ensures count <= 6
    {
      (if traceEntry then 0 else 1) + (if traceExit then 0 else 1) + (if fault then 0 else 1)
      + (if fd then 0 else 1) + (if allocation then 0 else 1) + (if resource then 0 else 1)
    }

    function Join(other: Capabilities): Capabilities {
      Capabilities(traceEntry || other.traceEntry, traceExit || other.traceExit, fault || other.fault,
                   fd || other.fd, allocation || other.allocation, resource || other.resource)
    }
  }

  // What the facts say: definitions, calls within a repository, and directly observed roles.

  predicate Defines(fact: Fact, usr: Text) {
    IsFunctionDefinition(fact) && usr != [] && fact.usr == usr
  }

  /** The linear scan that the hash index stands for: the first definition of `usr`, or the number of facts. */
  function Scan(facts: seq<Fact>, usr: Text, from: nat := 0): (found: nat)
    requires from <= |facts|
    ensures from <= found <= |facts|
    ensures found < |facts| ==> Defines(facts[found], usr)
    ensures forall k :: from <= k < found ==> !Defines(facts[k], usr)
    decreases |facts| - from
  {
    if from == |facts| || Defines(facts[from], usr) then from else Scan(facts, usr, from + 1)
  }

  /** The first definition, identified or not, whose text contains the fact. */
  function Enclosing(facts: seq<Fact>, fact: Fact, from: nat := 0): (found: nat)
    requires from <= |facts|
    ensures from <= found <= |facts|
    ensures found < |facts| ==> IsFunctionDefinition(facts[found]) && Covers(facts[found], fact.path, fact.start)
    ensures forall k :: from <= k < found ==>
      !(IsFunctionDefinition(facts[k]) && Covers(facts[k], fact.path, fact.start))
    decreases |facts| - from
  {
    if from == |facts| || (IsFunctionDefinition(facts[from]) && Covers(facts[from], fact.path, fact.start)) then from
    else Enclosing(facts, fact, from + 1)
  }

  const ROOTS: seq<Text> := ["/libraries/", "/programs/", "/templates/"]

  predicate BothUnder(left: Text, right: Text, root: Text) { Find(left, root).Some? && Find(right, root).Some? }

  /** The path component after the first occurrence of `root`. */
  function RepositoryUnder(path: Text, root: Text): Text
    requires Find(path, root).Some?
  {
    UpToSlash(path[Find(path, root).value + |root|..])
  }

  /** The first root that both paths contain decides, by the component after it. */
  predicate SameUnder(left: Text, right: Text, roots: seq<Text>) {
    exists k :: 0 <= k < |roots| && BothUnder(left, right, roots[k])
      && (forall j :: 0 <= j < k ==> !BothUnder(left, right, roots[j]))
      && RepositoryUnder(left, roots[k]) == RepositoryUnder(right, roots[k])
  }

  predicate SameRepository(left: Text, right: Text) { SameUnder(left, right, ROOTS) }

  /** Fact `k` is a call between two known functions of one repository. */
  predicate IsInternalCall(facts: seq<Fact>, k: nat)
    requires k < |facts|
  {
    var caller, callee := Scan(facts, facts[k].callerUsr), Scan(facts, facts[k].usr);
    && facts[k].kind == Call && caller < |facts| && callee < |facts|
    && SameRepository(facts[caller].path, facts[callee].path)
  }

  ghost function CallEdges(facts: seq<Fact>): Edges {
    set k | 0 <= k < |facts| && IsInternalCall(facts, k) :: (Scan(facts, facts[k].callerUsr), Scan(facts, facts[k].usr))
  }

  function RoleName(flag: Flag): string {
    match flag
    case TraceEntry => "CALLEE_SEMANTIC_ROLE:p101:instrumentation:trace-entry"
    case TraceExit => "CALLEE_SEMANTIC_ROLE:p101:instrumentation:trace-exit"
    case Fault => "CALLEE_SEMANTIC_ROLE:p101:instrumentation:fault"
    case Fd => "CALLEE_SEMANTIC_ROLE:p101:instrumentation:fd"
    case Allocation => "CALLEE_SEMANTIC_ROLE:p101:instrumentation:allocation"
    case Resource => "CALLEE_SEMANTIC_ROLE:p101:instrumentation:resource"
  }

  /** A note with this name shows the flag; `isTraceUse` is the library's classification of note names. */
  predicate Shows(name: Text, flag: Flag, isTraceUse: Text -> bool) {
    name == RoleName(flag) || (isTraceUse(name) && (flag == TraceEntry || flag == TraceExit))
  }

  /** The function a note belongs to: its identified caller, else the first definition around it. */
  function NoteTarget(facts: seq<Fact>, note: Fact): (target: nat)
    ensures target <= |facts|
  {
    var caller := Scan(facts, note.callerUsr);
    if caller < |facts| then caller else Enclosing(facts, note)
  }

  ghost predicate SeededBy(facts: seq<Fact>, isTraceUse: Text -> bool, k: nat, i: nat, flag: Flag)
    requires k < |facts|
  {
    facts[k].kind == Note && NoteTarget(facts, facts[k]) == i && Shows(facts[k].name, flag, isTraceUse)
  }

  /** One of the first `n` facts is a note that shows the flag for function `i`. */
  ghost predicate Seeded(facts: seq<Fact>, isTraceUse: Text -> bool, n: nat, i: nat, flag: Flag)
    requires n <= |facts|
  {
    exists k :: 0 <= k < n && SeededBy(facts, isTraceUse, k, i, flag)
  }

  /** The meaning of the analysis: `i` has the flag when it calls its way to a function that starts with it. */
  ghost predicate Inherits(edges: Edges, start: seq<Capabilities>, i: nat, flag: Flag) {
    exists j :: 0 <= j < |start| && Reaches(edges, i, j) && start[j].Has(flag)
  }

  // Building the index.

  function CountFunctions(facts: seq<Fact>, n: nat): (count: nat)
    requires n <= |facts|
    ensures count <= n
  {
    if n == 0 then 0 else CountFunctions(facts, n - 1) + if Defines(facts[n - 1], facts[n - 1].usr) then 1 else 0
  }

  lemma {:induction false} CountGrows(facts: seq<Fact>, m: nat, n: nat)
    requires m <= n <= |facts|
    ensures CountFunctions(facts, m) <= CountFunctions(facts, n)
  {
    if m < n {
      CountGrows(facts, m, n - 1);
    }
  }

  /** The entries after the first `n` facts: a repeated identity keeps its first index. */
  ghost function Entries(facts: seq<Fact>, n: nat): (entries: map<Text, nat>)
    requires n <= |facts|
    ensures |entries| <= CountFunctions(facts, n)
  {
    if n == 0 then map[]
    else
      var entries := Entries(facts, n - 1);
      var usr := facts[n - 1].usr;
      if Defines(facts[n - 1], usr) && usr !in entries then entries[usr := n - 1] else entries
  }

  lemma NoEntries(facts: seq<Fact>)
    ensures Entries(facts, 0) == map[]
  {
  }

  lemma EntriesStep(facts: seq<Fact>, index: nat)
    requires index < |facts|
    ensures var entries, fact := Entries(facts, index), facts[index];
      Entries(facts, index + 1) ==
        if fact.kind == Function && fact.isDefinition && fact.usr != [] && fact.usr !in entries
        then entries[fact.usr := index] else entries
  {
  }

  lemma {:induction false} EntriesAreFirst(facts: seq<Fact>, n: nat, usr: Text)
    requires n <= |facts|
    ensures var entries := Entries(facts, n);
      if usr in entries then entries[usr] < n && entries[usr] == Scan(facts, usr)
      else forall k :: 0 <= k < n ==> !Defines(facts[k], usr)
  {
    if n > 0 {
      EntriesAreFirst(facts, n - 1, usr);
    }
  }

  /** The entries agree with the linear scan on every identity. */
  lemma EntriesAreScan(facts: seq<Fact>, usr: Text)
    ensures var entries := Entries(facts, |facts|);
      Scan(facts, usr) == if usr != [] && usr in entries then entries[usr] else |facts|
  {
    EntriesAreFirst(facts, |facts|, usr);
  }

  /** Every fact holds two 4096-byte paths and all facts are one allocation, so twice their number is a `size_t`. */
  const FACT_SIZE_AT_LEAST: nat := 8192

  ghost predicate FitsInMemory(facts: seq<Fact>, width: Width) {
    |facts| * FACT_SIZE_AT_LEAST <= SizeMax(width)
  }

  /** The table size: a power of two, at least twice the number of definitions.  The overflow exit is never taken. */
  method TableCapacity(facts: seq<Fact>, width: Width) returns (capacity: nat, overflow: bool)
    requires FitsInMemory(facts, width)
    ensures !overflow
    ensures IsCapacity(capacity, width) && capacity > 0 && CountFunctions(facts, |facts|) * 2 <= capacity
  {
    hide SizeMax;
    var functionCount := 0;
    for index := 0 to |facts|
      invariant functionCount == CountFunctions(facts, index)
    {
      if facts[index].kind == Function && facts[index].isDefinition && facts[index].usr != [] {
        functionCount := functionCount + 1;
      }
    }
    capacity, overflow := 16, false;
    ghost var exponent := 4;
    assert Pow2(4) == 16;
    while capacity < functionCount * 2
      invariant capacity == Pow2(exponent) && 0 < capacity <= SizeMax(width)
    {
      if capacity > SizeMax(width) / 2 {
        return capacity, true;
      }
      capacity, exponent := capacity * 2, exponent + 1;
    }
  }

  method BuildIndex(facts: seq<Fact>, width: Width) returns (slots: array<Slot>, full: bool)
    requires FitsInMemory(facts, width)
    ensures fresh(slots) && !full
    ensures IsCapacity(slots.Length, width) && Represents(slots[..], Entries(facts, |facts|), width)
    ensures |Entries(facts, |facts|)| * 2 <= slots.Length
  {
    hide SizeMax, Represents, Defines, IsCapacity, FitsInMemory, Entries, CountFunctions;
    full := false;
    var capacity, overflow := TableCapacity(facts, width);
    slots := new Slot[capacity](_ => Free);
    EmptyTable(slots[..], width);
    NoEntries(facts);
    for index := 0 to |facts|
      invariant Represents(slots[..], Entries(facts, index), width)
    {
      CountGrows(facts, index, |facts|);
      EntriesStep(facts, index);
      var fact := facts[index];
      if fact.kind != Function || !fact.isDefinition || fact.usr == [] {
        continue;
      }
      var outcome := Insert(slots, fact.usr, index, width, Entries(facts, index));
      if outcome == Full {
        return slots, true;
      }
    }
  }

  /** Look up through the table what `Scan` finds. */
  method Resolve(slots: array<Slot>, facts: seq<Fact>, usr: Text, width: Width) returns (found: nat)
    requires IsCapacity(slots.Length, width) && Represents(slots[..], Entries(facts, |facts|), width)
    ensures found == Scan(facts, usr)
  {
    found := Lookup(slots, usr, |facts|, width, Entries(facts, |facts|));
    EntriesAreScan(facts, usr);
  }

  method FallbackFunction(facts: seq<Fact>, fact: Fact) returns (found: nat)
    ensures found == Enclosing(facts, fact)
  {
    found := |facts|;
    for index := 0 to |facts|
      invariant found == |facts|
      invariant Enclosing(facts, fact) == Enclosing(facts, fact, index)
    {
      var candidate := facts[index];
      if candidate.kind != Function || !candidate.isDefinition {
        continue;
      }
      if candidate.path == fact.path && fact.start >= candidate.start && fact.start < candidate.end {
        return index;
      }
    }
  }

  lemma FirstRootDecides(left: Text, right: Text, roots: seq<Text>, k: nat)
    requires k < |roots| && BothUnder(left, right, roots[k])
    requires forall j :: 0 <= j < k ==> !BothUnder(left, right, roots[j])
    ensures SameUnder(left, right, roots) <==> RepositoryUnder(left, roots[k]) == RepositoryUnder(right, roots[k])
  {
    hide RepositoryUnder;
  }

  method InSameRepository(left: Text, right: Text, roots: seq<Text>) returns (same: bool)
    ensures same == SameUnder(left, right, roots)
  {
    hide Find, UpToSlash;
    for index := 0 to |roots|
      invariant forall j :: 0 <= j < index ==> !BothUnder(left, right, roots[j])
    {
      var root := roots[index];
      var leftRoot, rightRoot := Find(left, root), Find(right, root);
      if leftRoot.Some? && rightRoot.Some? {
        FirstRootDecides(left, right, roots, index);
        var leftName := UpToSlash(left[leftRoot.value + |root|..]);
        var rightName := UpToSlash(right[rightRoot.value + |root|..]);
        hide *;
        return |leftName| == |rightName| && leftName == rightName;
      }
    }
    same := false;
  }

  // Direct observations.

  const ROLES: seq<Flag> := [TraceEntry, TraceExit, Fault, Fd, Allocation, Resource]

  const ROLE_NAMES: seq<string> := [
    "CALLEE_SEMANTIC_ROLE:p101:instrumentation:trace-entry",
    "CALLEE_SEMANTIC_ROLE:p101:instrumentation:trace-exit",
    "CALLEE_SEMANTIC_ROLE:p101:instrumentation:fault",
    "CALLEE_SEMANTIC_ROLE:p101:instrumentation:fd",
    "CALLEE_SEMANTIC_ROLE:p101:instrumentation:allocation",
    "CALLEE_SEMANTIC_ROLE:p101:instrumentation:resource"
  ]

  lemma RoleNamesAre()
    ensures |ROLE_NAMES| == |ROLES| && forall j :: 0 <= j < |ROLES| ==> ROLE_NAMES[j] == RoleName(ROLES[j])
  {
  }

  method AddRole(capabilities: array<Capabilities>, target: nat, role: Text)
    requires target < capabilities.Length
    modifies capabilities
    ensures forall i :: 0 <= i < capabilities.Length && i != target ==> capabilities[i] == old(capabilities[i])
    ensures forall flag :: capabilities[target].Has(flag) <==>
      old(capabilities[target]).Has(flag) || role == RoleName(flag)
  {
    var names, flags := ROLE_NAMES, ROLES;
    RoleNamesAre();
    hide RoleName, ROLE_NAMES;
    for index := 0 to |names|
      invariant capabilities[..] == old(capabilities[..])
      invariant forall j :: 0 <= j < index ==> role != RoleName(flags[j])
    {
      if role == names[index] {
        RoleNamesDiffer(flags[index]);
        capabilities[target] := capabilities[target].With(flags[index]);
        return;
      }
    }
    forall flag
      ensures role != RoleName(flag)
    {
      assert flag == flags[0] || flag == flags[1] || flag == flags[2]
        || flag == flags[3] || flag == flags[4] || flag == flags[5];
    }
  }

  lemma RoleNamesDiffer(flag: Flag)
    ensures forall other :: RoleName(other) == RoleName(flag) ==> other == flag
  {
  }

  method SeedNotes(
    facts: seq<Fact>, slots: array<Slot>, capabilities: array<Capabilities>, isTraceUse: Text -> bool, width: Width)
    requires IsCapacity(slots.Length, width) && Represents(slots[..], Entries(facts, |facts|), width)
    requires capabilities.Length == |facts|
    modifies capabilities
    ensures forall i, flag :: 0 <= i < |facts| ==>
      (capabilities[i].Has(flag) <==> old(capabilities[i]).Has(flag) || Seeded(facts, isTraceUse, |facts|, i, flag))
  {
    hide IsCapacity, Represents, Entries, NoteTarget, RoleName;
    for index := 0 to |facts|
      invariant forall i, flag :: 0 <= i < |facts| ==>
        (capabilities[i].Has(flag) <==> old(capabilities[i]).Has(flag) || Seeded(facts, isTraceUse, index, i, flag))
    {
      SeededStep(facts, isTraceUse, index);
      var fact := facts[index];
      if fact.kind != Note {
        continue;
      }
      var caller := TargetOf(facts, slots, fact, width);
      if caller == |facts| {
        continue;
      }
      if isTraceUse(fact.name) {
        capabilities[caller] := capabilities[caller].With(TraceEntry);
        capabilities[caller] := capabilities[caller].With(TraceExit);
      }
      AddRole(capabilities, caller, fact.name);
    }
  }

  method TargetOf(facts: seq<Fact>, slots: array<Slot>, fact: Fact, width: Width) returns (target: nat)
    requires IsCapacity(slots.Length, width) && Represents(slots[..], Entries(facts, |facts|), width)
    ensures target == NoteTarget(facts, fact)
  {
    target := Resolve(slots, facts, fact.callerUsr, width);
    if target == |facts| {
      target := FallbackFunction(facts, fact);
    }
  }

  lemma SeededStep(facts: seq<Fact>, isTraceUse: Text -> bool, n: nat)
    requires n < |facts|
    ensures forall i, flag :: Seeded(facts, isTraceUse, n + 1, i, flag) <==>
      Seeded(facts, isTraceUse, n, i, flag) || SeededBy(facts, isTraceUse, n, i, flag)
  {
  }

  // The fixpoint.

  method MergeFlag(destination: bool, source: bool) returns (flag: bool, changed: bool)
    ensures flag == (destination || source) && changed == (!destination && source)
  {
    flag, changed := destination, false;
    if !destination && source {
      flag, changed := true, true;
    }
  }

  method Merge(capabilities: array<Capabilities>, destination: nat, source: nat) returns (changed: bool)
    requires destination < capabilities.Length && source < capabilities.Length
    modifies capabilities
    ensures var joined := old(capabilities[destination].Join(capabilities[source]));
      capabilities[..] == old(capabilities[..])[destination := joined]
    ensures changed == (capabilities[destination] != old(capabilities[destination]))
  {
    var from, to := capabilities[source], capabilities[destination];
    var traceEntry, c0 := MergeFlag(to.traceEntry, from.traceEntry);
    var traceExit, c1 := MergeFlag(to.traceExit, from.traceExit);
    var fault, c2 := MergeFlag(to.fault, from.fault);
    var fd, c3 := MergeFlag(to.fd, from.fd);
    var allocation, c4 := MergeFlag(to.allocation, from.allocation);
    var resource, c5 := MergeFlag(to.resource, from.resource);
    capabilities[destination] := Capabilities(traceEntry, traceExit, fault, fd, allocation, resource);
    changed := c0 || c1 || c2 || c3 || c4 || c5;
  }

  function Missing(capabilities: seq<Capabilities>): (count: nat)
    ensures count <= 6 * |capabilities|
  {
    if capabilities == [] then 0
    else Missing(capabilities[..|capabilities| - 1]) + capabilities[|capabilities| - 1].MissingFlags()
  }

  /** A merge that changes something leaves fewer flags to set. */
  lemma {:induction false} MissingAfterJoin(capabilities: seq<Capabilities>, i: nat, other: Capabilities)
    requires i < |capabilities|
    ensures var after := capabilities[i := capabilities[i].Join(other)];
      if after[i] == capabilities[i] then after == capabilities else Missing(after) < Missing(capabilities)
  {
    var n := |capabilities| - 1;
    var after := capabilities[i := capabilities[i].Join(other)];
    if i == n {
      assert after[..n] == capabilities[..n];
    } else {
      assert after[..n] == capabilities[..n][i := capabilities[i].Join(other)];
      MissingAfterJoin(capabilities[..n], i, other);
    }
  }

  ghost predicate AtLeast(current: seq<Capabilities>, start: seq<Capabilities>) {
    |current| == |start| && forall i, flag :: 0 <= i < |start| && start[i].Has(flag) ==> current[i].Has(flag)
  }

  /** Nothing is set without a reason. */
  ghost predicate Justified(edges: Edges, start: seq<Capabilities>, current: seq<Capabilities>) {
    && |current| == |start|
    && forall i, flag :: 0 <= i < |start| && current[i].Has(flag) ==> Inherits(edges, start, i, flag)
  }

  /** The edges of the first `n` facts have nothing left to pass on. */
  ghost predicate Settled(facts: seq<Fact>, current: seq<Capabilities>, n: nat)
    requires n <= |facts| == |current|
  {
    forall k, flag :: 0 <= k < n && IsInternalCall(facts, k) && current[Scan(facts, facts[k].usr)].Has(flag) ==>
      current[Scan(facts, facts[k].callerUsr)].Has(flag)
  }

  lemma JoinHas(left: Capabilities, right: Capabilities, flag: Flag)
    ensures left.Join(right).Has(flag) <==> left.Has(flag) || right.Has(flag)
  {
  }

  lemma JoinJustified(edges: Edges, start: seq<Capabilities>, current: seq<Capabilities>, caller: nat, callee: nat)
    requires caller < |current| && callee < |current| && (caller, callee) in edges
    requires AtLeast(current, start) && Justified(edges, start, current)
    ensures var after := current[caller := current[caller].Join(current[callee])];
      AtLeast(after, start) && Justified(edges, start, after)
  {
    var after := current[caller := current[caller].Join(current[callee])];
    forall i, flag | 0 <= i < |start| && after[i].Has(flag)
      ensures Inherits(edges, start, i, flag)
    {
      if !current[i].Has(flag) {
        JoinHas(current[caller], current[callee], flag);
        assert current[callee].Has(flag);
        var j: nat :| j < |start| && Reaches(edges, callee, j) && start[j].Has(flag);
        ReachesBefore(edges, caller, callee, j);
      }
    }
  }

  /** When a whole pass changes nothing, exactly the inherited flags are set. */
  lemma SettledIsLeast(facts: seq<Fact>, start: seq<Capabilities>, current: seq<Capabilities>)
    requires |facts| == |current|
    requires AtLeast(current, start) && Justified(CallEdges(facts), start, current)
    requires Settled(facts, current, |facts|)
    ensures forall i, flag :: 0 <= i < |facts| ==>
      (current[i].Has(flag) <==> Inherits(CallEdges(facts), start, i, flag))
  {
    var edges := CallEdges(facts);
    forall i, flag | 0 <= i < |facts| && Inherits(edges, start, i, flag)
      ensures current[i].Has(flag)
    {
      var closed := iset n: nat | n < |current| && current[n].Has(flag);
      var j: nat :| j < |start| && Reaches(edges, i, j) && start[j].Has(flag);
      BackwardClosed(edges, closed, i, j);
    }
  }

  method Propagate(facts: seq<Fact>, slots: array<Slot>, capabilities: array<Capabilities>, width: Width)
    returns (ghost changingPasses: nat)
    requires IsCapacity(slots.Length, width) && Represents(slots[..], Entries(facts, |facts|), width)
    requires capabilities.Length == |facts|
    modifies capabilities
    ensures forall i, flag :: 0 <= i < |facts| ==>
      (capabilities[i].Has(flag) <==> Inherits(CallEdges(facts), old(capabilities[..]), i, flag))
    ensures changingPasses <= 6 * |facts|
  {
    hide *;
    ghost var start := capabilities[..];
    StartsJustified(CallEdges(facts), start);
    changingPasses := 0;
    var changed := true;
    while changed
      invariant AtLeast(capabilities[..], start) && Justified(CallEdges(facts), start, capabilities[..])
      invariant !changed ==> Settled(facts, capabilities[..], |facts|)
      invariant changingPasses + Missing(capabilities[..]) <= 6 * |facts|
      decreases Missing(capabilities[..]), changed
    {
      ghost var before := Missing(capabilities[..]);
      changed := Pass(facts, slots, capabilities, start, width);
      if changed {
        changingPasses := changingPasses + 1;
      }
    }
    SettledIsLeast(facts, start, capabilities[..]);
  }

  lemma StartsJustified(edges: Edges, start: seq<Capabilities>)
    ensures AtLeast(start, start) && Justified(edges, start, start)
  {
    forall i: nat {
      ReachesSelf(edges, i);
    }
  }

  lemma InternalCall(facts: seq<Fact>, k: nat)
    requires k < |facts|
    ensures var caller, callee := Scan(facts, facts[k].callerUsr), Scan(facts, facts[k].usr);
      && (IsInternalCall(facts, k) <==>
            && facts[k].kind == Call && caller < |facts| && callee < |facts|
            && SameUnder(facts[caller].path, facts[callee].path, ROOTS))
      && (IsInternalCall(facts, k) ==> (caller, callee) in CallEdges(facts))
  {
  }

  lemma NothingToSettle(facts: seq<Fact>, current: seq<Capabilities>)
    requires |facts| == |current|
    ensures Settled(facts, current, 0)
  {
  }

  lemma SettledStep(facts: seq<Fact>, current: seq<Capabilities>, n: nat)
    requires n < |facts| == |current| && Settled(facts, current, n)
    requires IsInternalCall(facts, n) ==>
      var caller, callee := Scan(facts, facts[n].callerUsr), Scan(facts, facts[n].usr);
      caller < |facts| && callee < |facts| && current[caller].Join(current[callee]) == current[caller]
    ensures Settled(facts, current, n + 1)
  {
    hide SameRepository, Scan;
    if IsInternalCall(facts, n) {
      var caller, callee := Scan(facts, facts[n].callerUsr), Scan(facts, facts[n].usr);
      forall flag | current[callee].Has(flag)
        ensures current[caller].Has(flag)
      {
        JoinHas(current[caller], current[callee], flag);
      }
    }
  }

  /** One turn of the outer loop. */
  method Pass(
    facts: seq<Fact>, slots: array<Slot>, capabilities: array<Capabilities>, ghost start: seq<Capabilities>,
    width: Width)
    returns (changed: bool)
    requires IsCapacity(slots.Length, width) && Represents(slots[..], Entries(facts, |facts|), width)
    requires capabilities.Length == |facts|
    requires AtLeast(capabilities[..], start) && Justified(CallEdges(facts), start, capabilities[..])
    modifies capabilities
    ensures AtLeast(capabilities[..], start) && Justified(CallEdges(facts), start, capabilities[..])
    ensures if changed then Missing(capabilities[..]) < Missing(old(capabilities[..]))
            else capabilities[..] == old(capabilities[..]) && Settled(facts, capabilities[..], |facts|)
  {
    hide *;
    changed := false;
    NothingToSettle(facts, capabilities[..]);
    for index := 0 to |facts|
      invariant AtLeast(capabilities[..], start) && Justified(CallEdges(facts), start, capabilities[..])
      invariant if changed then Missing(capabilities[..]) < Missing(old(capabilities[..]))
                else capabilities[..] == old(capabilities[..]) && Settled(facts, capabilities[..], index)
    {
      InternalCall(facts, index);
      var fact := facts[index];
      if !changed && !IsInternalCall(facts, index) {
        SettledStep(facts, capabilities[..], index);
      }
      if fact.kind != Call {
        continue;
      }
      var caller := Resolve(slots, facts, fact.callerUsr, width);
      var callee := Resolve(slots, facts, fact.usr, width);
      if caller == |facts| || callee == |facts| {
        continue;
      }
      var inserted := InSameRepository(facts[caller].path, facts[callee].path, ROOTS);
      if !inserted {
        continue;
      }
      JoinJustified(CallEdges(facts), start, capabilities[..], caller, callee);
      MissingAfterJoin(capabilities[..], caller, capabilities[callee]);
      inserted := Merge(capabilities, caller, callee);
      if !changed && !inserted {
        SettledStep(facts, capabilities[..], index);
      }
      changed := changed || inserted;
    }
  }

  // The whole analysis.

  /** What the analysis promises: `i` calls its way, inside its repository, to a function that had the flag from the
      start or has a note that shows it. */
  ghost predicate Capable(facts: seq<Fact>, isTraceUse: Text -> bool, initial: seq<Capabilities>, i: nat, flag: Flag) {
    exists j :: 0 <= j < |initial| && Reaches(CallEdges(facts), i, j)
      && (initial[j].Has(flag) || Seeded(facts, isTraceUse, |facts|, j, flag))
  }

  /** Table, seeds and fixpoint in turn.  No error exit is taken, and at most six passes per fact change anything. */
  method Collect(facts: seq<Fact>, capabilities: array<Capabilities>, isTraceUse: Text -> bool, width: Width)
    returns (collected: bool, ghost changingPasses: nat)
    requires FitsInMemory(facts, width) && capabilities.Length == |facts|
    modifies capabilities
    ensures collected
    ensures forall i, flag :: 0 <= i < |facts| ==>
      (capabilities[i].Has(flag) <==> Capable(facts, isTraceUse, old(capabilities[..]), i, flag))
    ensures changingPasses <= 6 * |facts|
  {
    hide *;
    changingPasses := 0;
    var slots, full := BuildIndex(facts, width);
    if !full {
      SeedNotes(facts, slots, capabilities, isTraceUse, width);
      ghost var start := capabilities[..];
      changingPasses := Propagate(facts, slots, capabilities, width);
      SeedsThenInherits(facts, isTraceUse, old(capabilities[..]), start);
    }
    collected := !full;
  }

  lemma SeedsThenInherits(
    facts: seq<Fact>, isTraceUse: Text -> bool, initial: seq<Capabilities>, start: seq<Capabilities>)
    requires |initial| == |start| == |facts|
    requires forall i, flag :: 0 <= i < |facts| ==>
      (start[i].Has(flag) <==> initial[i].Has(flag) || Seeded(facts, isTraceUse, |facts|, i, flag))
    ensures forall i, flag :: Inherits(CallEdges(facts), start, i, flag) <==>
      Capable(facts, isTraceUse, initial, i, flag)
  {
    hide CallEdges, Reaches, Seeded, Scan;
    var edges := CallEdges(facts);
    forall i, flag
      ensures Inherits(edges, start, i, flag) <==> Capable(facts, isTraceUse, initial, i, flag)
    {
      if Inherits(edges, start, i, flag) {
        var j: nat :| j < |start| && Reaches(edges, i, j) && start[j].Has(flag);
        assert initial[j].Has(flag) || Seeded(facts, isTraceUse, |facts|, j, flag);
      }
      if Capable(facts, isTraceUse, initial, i, flag) {
        var j: nat :| j < |initial| && Reaches(edges, i, j)
          && (initial[j].Has(flag) || Seeded(facts, isTraceUse, |facts|, j, flag));
        assert start[j].Has(flag);
      }
    }
  }

  /** The analysis reports no more than it must: any set of functions that holds the seeds of a flag and every caller of
      its members holds all functions reported for that flag. */
  lemma CapableIsLeast(
    facts: seq<Fact>, isTraceUse: Text -> bool, initial: seq<Capabilities>, flag: Flag, closed: iset<nat>)
    requires forall j :: 0 <= j < |initial| ==>
      initial[j].Has(flag) || Seeded(facts, isTraceUse, |facts|, j, flag) ==> j in closed
    requires forall edge :: edge in CallEdges(facts) && edge.1 in closed ==> edge.0 in closed
    ensures forall i: nat :: Capable(facts, isTraceUse, initial, i, flag) ==> i in closed
  {
    forall i: nat | Capable(facts, isTraceUse, initial, i, flag)
      ensures i in closed
    {
      var j: nat :| j < |initial| && Reaches(CallEdges(facts), i, j)
        && (initial[j].Has(flag) || Seeded(facts, isTraceUse, |facts|, j, flag));
      BackwardClosed(CallEdges(facts), closed, i, j);
    }
  }

  // The order of the call facts.

  ghost function Calls(facts: seq<Fact>): set<Fact> {
    set fact | fact in facts && fact.kind == Call
  }

  /** The same facts except that calls may stand in another order or number. */
  ghost predicate SameButCallOrder(facts: seq<Fact>, other: seq<Fact>) {
    && |facts| == |other|
    && (forall k :: 0 <= k < |facts| ==> facts[k] == other[k] || facts[k].kind == other[k].kind == Call)
    && Calls(facts) == Calls(other)
  }

  lemma {:induction false} SameScan(facts: seq<Fact>, other: seq<Fact>, usr: Text, from: nat := 0)
    requires SameButCallOrder(facts, other) && from <= |facts|
    ensures Scan(facts, usr, from) == Scan(other, usr, from)
    decreases |facts| - from
  {
    if from < |facts| {
      SameScan(facts, other, usr, from + 1);
    }
  }

  lemma {:induction false} SameEnclosing(facts: seq<Fact>, other: seq<Fact>, note: Fact, from: nat := 0)
    requires SameButCallOrder(facts, other) && from <= |facts|
    ensures Enclosing(facts, note, from) == Enclosing(other, note, from)
    decreases |facts| - from
  {
    if from < |facts| {
      SameEnclosing(facts, other, note, from + 1);
    }
  }

  lemma CallEdgesWithin(facts: seq<Fact>, other: seq<Fact>)
    requires SameButCallOrder(facts, other)
    ensures CallEdges(facts) <= CallEdges(other)
  {
    forall edge | edge in CallEdges(facts)
      ensures edge in CallEdges(other)
    {
      var k :| 0 <= k < |facts| && IsInternalCall(facts, k)
        && edge == (Scan(facts, facts[k].callerUsr), Scan(facts, facts[k].usr));
      hide IsInternalCall, Scan;
      assert facts[k] in Calls(other) by {
        InternalCall(facts, k);
      }
      var k': nat :| k' < |other| && other[k'] == facts[k];
      InternalCallMoves(facts, other, k, k');
    }
  }

  lemma InternalCallMoves(facts: seq<Fact>, other: seq<Fact>, k: nat, k': nat)
    requires SameButCallOrder(facts, other)
    requires k < |facts| && k' < |other| && facts[k] == other[k'] && IsInternalCall(facts, k)
    ensures (Scan(facts, facts[k].callerUsr), Scan(facts, facts[k].usr)) in CallEdges(other)
  {
    hide IsInternalCall, Scan, CallEdges, SameUnder;
    InternalCall(facts, k);
    InternalCall(other, k');
    SameScan(facts, other, facts[k].callerUsr);
    SameScan(facts, other, facts[k].usr);
  }

  lemma SeedsWithin(facts: seq<Fact>, other: seq<Fact>, isTraceUse: Text -> bool, j: nat, flag: Flag)
    requires SameButCallOrder(facts, other) && Seeded(facts, isTraceUse, |facts|, j, flag)
    ensures Seeded(other, isTraceUse, |other|, j, flag)
  {
    var k :| 0 <= k < |facts| && SeededBy(facts, isTraceUse, k, j, flag);
    SameScan(facts, other, facts[k].callerUsr);
    SameEnclosing(facts, other, facts[k]);
    assert SeededBy(other, isTraceUse, k, j, flag);
  }

  /** The result depends on which calls there are, not on the order in which the loop visits them. */
  lemma CallOrderIsIrrelevant(
    facts: seq<Fact>, other: seq<Fact>, isTraceUse: Text -> bool, initial: seq<Capabilities>, i: nat, flag: Flag)
    requires SameButCallOrder(facts, other)
    ensures Capable(facts, isTraceUse, initial, i, flag) <==> Capable(other, isTraceUse, initial, i, flag)
  {
    hide CallEdges, Seeded;
    CallEdgesWithin(facts, other);
    CallEdgesWithin(other, facts);
    forall j: nat
      ensures Seeded(facts, isTraceUse, |facts|, j, flag) <==> Seeded(other, isTraceUse, |other|, j, flag)
    {
      if Seeded(facts, isTraceUse, |facts|, j, flag) {
        SeedsWithin(facts, other, isTraceUse, j, flag);
      } else if Seeded(other, isTraceUse, |other|, j, flag) {
        SeedsWithin(other, facts, isTraceUse, j, flag);
      }
    }
  }
}
