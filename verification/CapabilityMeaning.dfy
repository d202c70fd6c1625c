/** What the capability analysis reads from the facts, in terms of their fields. */
module CapabilityMeaning {
  import opened CStrings
  import opened Facts
  import opened Graph
  import opened Instrumentation

  // The flags.

  lemma FlagsAreFields(c: Capabilities)
    ensures c.Has(TraceEntry) == c.traceEntry && c.Has(TraceExit) == c.traceExit
    ensures c.Has(Fault) == c.fault && c.Has(Fd) == c.fd
    ensures c.Has(Allocation) == c.allocation && c.Has(Resource) == c.resource
    ensures forall flag, other :: c.With(flag).Has(other) <==> c.Has(other) || flag == other
  {
  }

  /** A note of a traced call shows entry and exit; any other only what its name says. */
  predicate Says(name: Text, flag: Flag, isTraceUse: Text -> bool) {
    match flag
    case TraceEntry => isTraceUse(name) || name == "CALLEE_SEMANTIC_ROLE:p101:instrumentation:trace-entry"
    case TraceExit => isTraceUse(name) || name == "CALLEE_SEMANTIC_ROLE:p101:instrumentation:trace-exit"
    case Fault => name == "CALLEE_SEMANTIC_ROLE:p101:instrumentation:fault"
    case Fd => name == "CALLEE_SEMANTIC_ROLE:p101:instrumentation:fd"
    case Allocation => name == "CALLEE_SEMANTIC_ROLE:p101:instrumentation:allocation"
    case Resource => name == "CALLEE_SEMANTIC_ROLE:p101:instrumentation:resource"
  }

  lemma SaysIff(name: Text, flag: Flag, isTraceUse: Text -> bool)
    ensures Shows(name, flag, isTraceUse) <==> Says(name, flag, isTraceUse)
  {
  }

  // Whom the facts name.

  /** Fact `k` is the first definition of a function with this identity. */
  predicate IsNamed(facts: seq<Fact>, usr: Text, k: nat) {
    && k < |facts| && usr != [] && IsDefinition(facts[k]) && facts[k].usr == usr
    && forall j :: 0 <= j < k && IsDefinition(facts[j]) ==> facts[j].usr != usr
  }

  predicate IsDefinition(fact: Fact) { fact.isDefinition && fact.kind == Function }

  /** Fact `k` is the first definition of a function whose text contains the start of the note. */
  predicate IsAround(facts: seq<Fact>, note: Fact, k: nat) {
    && k < |facts| && Contains(facts[k], note) && forall j :: 0 <= j < k ==> !Contains(facts[j], note)
  }

  predicate Contains(fact: Fact, note: Fact) {
    IsDefinition(fact) && fact.path == note.path && fact.start <= note.start && note.start < fact.end
  }

  lemma NamedIff(facts: seq<Fact>, usr: Text, k: nat)
    ensures IsNamed(facts, usr, k) <==> k < |facts| && Scan(facts, usr) == k
  {
    var found := Scan(facts, usr);
    if IsNamed(facts, usr, k) {
      assert Defines(facts[k], usr);
      assert found <= k;
    }
  }

  /** A note belongs to the function it names as its caller, and to the first one around it if it names none. */
  ghost predicate IsOwner(facts: seq<Fact>, note: Fact, i: nat) {
    if exists k: nat :: IsNamed(facts, note.callerUsr, k) then IsNamed(facts, note.callerUsr, i)
    else IsAround(facts, note, i)
  }

  lemma OwnerIff(facts: seq<Fact>, note: Fact, i: nat)
    requires i < |facts|
    ensures NoteTarget(facts, note) == i <==> IsOwner(facts, note, i)
  {
    hide IsNamed, Scan, Enclosing;
    var caller, around := Scan(facts, note.callerUsr), Enclosing(facts, note);
    NamedIff(facts, note.callerUsr, caller);
    NamedIff(facts, note.callerUsr, i);
    forall k: nat | IsNamed(facts, note.callerUsr, k)
      ensures k == caller < |facts|
    {
      NamedIff(facts, note.callerUsr, k);
    }
    if IsAround(facts, note, i) {
      assert IsFunctionDefinition(facts[i]) && Covers(facts[i], note.path, note.start);
    }
  }

  /** Where the flags come from: a function starts with those that some note of its own shows. */
  lemma SeededIff(facts: seq<Fact>, isTraceUse: Text -> bool, i: nat, flag: Flag)
    requires i < |facts|
    ensures Seeded(facts, isTraceUse, |facts|, i, flag) <==>
      exists note :: note in facts && note.kind == Note && IsOwner(facts, note, i) && Says(note.name, flag, isTraceUse)
  {
    hide IsOwner, NoteTarget, Says, Shows;
    if Seeded(facts, isTraceUse, |facts|, i, flag) {
      var k :| 0 <= k < |facts| && SeededBy(facts, isTraceUse, k, i, flag);
      OwnerIff(facts, facts[k], i);
      SaysIff(facts[k].name, flag, isTraceUse);
      assert facts[k] in facts;
    }
    if note :| note in facts && note.kind == Note && IsOwner(facts, note, i) && Says(note.name, flag, isTraceUse) {
      var k :| 0 <= k < |facts| && facts[k] == note;
      OwnerIff(facts, note, i);
      SaysIff(note.name, flag, isTraceUse);
      assert SeededBy(facts, isTraceUse, k, i, flag);
    }
  }

  /** So a traced call gives its function both trace fields. */
  lemma TraceUseShowsBoth(
    facts: seq<Fact>, isTraceUse: Text -> bool, initial: seq<Capabilities>, note: Fact, i: nat)
    requires note in facts && note.kind == Note && isTraceUse(note.name) && IsOwner(facts, note, i)
    requires i < |facts| == |initial|
    ensures Capable(facts, isTraceUse, initial, i, TraceEntry) && Capable(facts, isTraceUse, initial, i, TraceExit)
  {
    hide IsOwner, Seeded, Reaches, CallEdges;
    SeededIff(facts, isTraceUse, i, TraceEntry);
    SeededIff(facts, isTraceUse, i, TraceExit);
    ReachesSelf(CallEdges(facts), i);
  }

  // Which calls count.

  /** The path has the component `name` behind its first occurrence of `root`. */
  ghost predicate LiesIn(path: Text, root: Text, name: Text) {
    exists at: nat :: OccursAt(path, root, at) && (forall k: nat :: k < at ==> !OccursAt(path, root, k))
      && IsComponentAt(path, at + |root|, name)
  }

  predicate IsComponentAt(path: Text, at: nat, name: Text) {
    && at + |name| <= |path| && path[at..at + |name|] == name && '/' !in name
    && (at + |name| < |path| ==> path[at + |name|] == '/')
  }

  ghost predicate Mentions(path: Text, root: Text) {
    exists at: nat :: OccursAt(path, root, at)
  }

  ghost predicate BothMention(left: Text, right: Text, root: Text) { Mentions(left, root) && Mentions(right, root) }

  /** One repository under the first root that both paths mention. */
  ghost predicate ShareRepository(left: Text, right: Text, roots: seq<Text>) {
    exists k :: 0 <= k < |roots| && AreInOne(left, right, roots[k])
      && forall j :: 0 <= j < k ==> !BothMention(left, right, roots[j])
  }

  ghost predicate AreInOne(left: Text, right: Text, root: Text) {
    exists name: Text :: LiesIn(left, root, name) && LiesIn(right, root, name)
  }

  lemma LiesInIff(path: Text, root: Text, name: Text)
    ensures LiesIn(path, root, name) <==> Find(path, root).Some? && RepositoryUnder(path, root) == name
    ensures Mentions(path, root) <==> Find(path, root).Some?
  {
    hide Find, IsComponentAt, LiesIn, UpToSlash;
    var found := Find(path, root);
    if found.Some? {
      ComponentIff(path, found.value + |root|, name);
      OneFirst(path, root, found.value, name);
    } else {
      NoneFirst(path, root, name);
    }
  }

  lemma OneFirst(path: Text, root: Text, first: nat, name: Text)
    requires OccursAt(path, root, first) && forall k: nat :: k < first ==> !OccursAt(path, root, k)
    ensures LiesIn(path, root, name) <==> IsComponentAt(path, first + |root|, name)
  {
    hide OccursAt, IsComponentAt;
  }

  lemma NoneFirst(path: Text, root: Text, name: Text)
    requires forall k: nat :: !OccursAt(path, root, k)
    ensures !LiesIn(path, root, name)
  {
    hide OccursAt, IsComponentAt;
  }

  lemma ComponentIff(path: Text, at: nat, name: Text)
    requires at <= |path|
    ensures IsComponentAt(path, at, name) <==> UpToSlash(path[at..]) == name
  {
    var rest := path[at..];
    if IsComponentAt(path, at, name) {
      assert rest == name + rest[|name|..];
      UpToSlashWhole(name, rest[|name|..]);
    }
  }

  lemma AreInOneIff(left: Text, right: Text, root: Text)
    ensures BothMention(left, right, root) <==> BothUnder(left, right, root)
    ensures AreInOne(left, right, root) <==>
      BothUnder(left, right, root) && RepositoryUnder(left, root) == RepositoryUnder(right, root)
  {
    hide LiesIn, Mentions, Find, RepositoryUnder;
    if BothUnder(left, right, root) {
      LiesInIff(left, root, RepositoryUnder(left, root));
      LiesInIff(right, root, RepositoryUnder(left, root));
    }
    forall name: Text
      ensures LiesIn(left, root, name) <==> Find(left, root).Some? && RepositoryUnder(left, root) == name
      ensures LiesIn(right, root, name) <==> Find(right, root).Some? && RepositoryUnder(right, root) == name
    {
      LiesInIff(left, root, name);
      LiesInIff(right, root, name);
    }
    LiesInIff(left, root, []);
    LiesInIff(right, root, []);
  }

  lemma ShareRepositoryIff(left: Text, right: Text, roots: seq<Text>)
    ensures SameUnder(left, right, roots) <==> ShareRepository(left, right, roots)
  {
    hide AreInOne, BothMention, Find, RepositoryUnder;
    forall k | 0 <= k < |roots|
      ensures BothMention(left, right, roots[k]) <==> BothUnder(left, right, roots[k])
      ensures AreInOne(left, right, roots[k]) <==>
        BothUnder(left, right, roots[k]) && RepositoryUnder(left, roots[k]) == RepositoryUnder(right, roots[k])
    {
      AreInOneIff(left, right, roots[k]);
    }
  }

  /** The call is between the first definitions of its two identities, in one repository. */
  ghost predicate IsCallBetween(facts: seq<Fact>, call: Fact, i: nat, j: nat) {
    && call.kind == Call && IsNamed(facts, call.callerUsr, i) && IsNamed(facts, call.usr, j)
    && ShareRepository(facts[i].path, facts[j].path, ROOTS)
  }

  lemma CallBetweenIff(facts: seq<Fact>, k: nat, i: nat, j: nat)
    requires k < |facts|
    ensures IsCallBetween(facts, facts[k], i, j) <==>
      IsInternalCall(facts, k) && i == Scan(facts, facts[k].callerUsr) && j == Scan(facts, facts[k].usr)
  {
    NamedIff(facts, facts[k].callerUsr, i);
    NamedIff(facts, facts[k].usr, j);
    if i < |facts| && j < |facts| {
      ShareRepositoryIff(facts[i].path, facts[j].path, ROOTS);
    }
    hide Scan, SameUnder, ShareRepository;
  }

  /** The edges are these calls, from caller to callee. */
  lemma CallEdgeIff(facts: seq<Fact>, i: nat, j: nat)
    ensures (i, j) in CallEdges(facts) <==> exists call :: call in facts && IsCallBetween(facts, call, i, j)
  {
    hide IsCallBetween, IsInternalCall, Scan;
    if (i, j) in CallEdges(facts) {
      var k :| 0 <= k < |facts| && IsInternalCall(facts, k)
        && (i, j) == (Scan(facts, facts[k].callerUsr), Scan(facts, facts[k].usr));
      CallBetweenIff(facts, k, i, j);
      assert facts[k] in facts;
    }
    if call :| call in facts && IsCallBetween(facts, call, i, j) {
      var k :| 0 <= k < |facts| && facts[k] == call;
      CallBetweenIff(facts, k, i, j);
    }
  }
}
