/** Comparing two API snapshots for breaking changes. */
module ApiCompare {
  import opened CStrings
  import opened ApiSnapshot

  // Looking a record up.

  predicate HasUsr(records: seq<Record>, usr: Text) {
    exists i :: 0 <= i < |records| && records[i].usr == usr
  }

  /** The first record of an identity. */
  function FirstOf(records: seq<Record>, usr: Text): (record: Record)
    requires HasUsr(records, usr)
    ensures record.usr == usr && record in records
  {
    if records[0].usr == usr then records[0]
    else
      assert HasUsr(records[1..], usr) by {
        var i :| 0 <= i < |records| && records[i].usr == usr;
        assert records[1..][i - 1].usr == usr;
      }
      FirstOf(records[1..], usr)
  }

  lemma {:induction false} FirstIs(records: seq<Record>, usr: Text, index: nat)
    requires index < |records| && records[index].usr == usr
    requires forall i :: 0 <= i < index ==> records[i].usr != usr
    ensures FirstOf(records, usr) == records[index]
  {
    if index > 0 {
      assert records[0].usr != usr;
      FirstIs(records[1..], usr, index - 1);
    }
  }

  method FindRecord(records: seq<Record>, usr: Text) returns (found: Option<Record>)
    ensures found.Some? <==> HasUsr(records, usr)
    ensures found.Some? ==> found.value == FirstOf(records, usr)
  {
    hide FirstOf;
    for index := 0 to |records|
      invariant forall i :: 0 <= i < index ==> records[i].usr != usr
    {
      if records[index].usr == usr {
        FirstIs(records, usr, index);
        return Some(records[index]);
      }
    }
    return None;
  }

  // Judging a pair of records.

  datatype Rule =
    | Removed | MovedLibrary | MovedHeader | LostLinux | LostMacos | LostFreebsd
    | FunctionType | TypeLayout | EnumValue | MacroValue | Ownership

  datatype Finding = Finding(rule: Rule, record: Record)

  /** The rule that reports a changed signature follows from the kind of the old record. */
  function SignatureRule(kind: Text): Rule {
    if kind == "type-layout" then TypeLayout
    else if kind == "enum-value" then EnumValue
    else if kind == "macro-value" then MacroValue
    else FunctionType
  }

  /** A rule is broken between two versions.  A move to another library hides a move to another header. */
  predicate Breaks(rule: Rule, previous: Record, current: Record) {
    match rule
    case Removed => false
    case MovedLibrary => previous.library != current.library
    case MovedHeader =>
      previous.library == current.library && previous.header != [] && previous.header != current.header
    case LostLinux => previous.linux == "yes" && current.linux != "yes"
    case LostMacos => previous.macos == "yes" && current.macos != "yes"
    case LostFreebsd => previous.freebsd == "yes" && current.freebsd != "yes"
    case Ownership => previous.ownership != "-" && previous.ownership != current.ownership
    case _ =>
      && rule == SignatureRule(previous.kind)
      && previous.signature != [] && current.signature != [] && previous.signature != current.signature
  }

  /** What a caller may rely on between two versions of one API: no rule is broken. */
  ghost predicate Compatible(previous: Record, current: Record) {
    forall rule :: !Breaks(rule, previous, current)
  }

  function Only(broken: bool, rule: Rule, current: Record): seq<Finding> {
    if broken then [Finding(rule, current)] else []
  }

  function Moves(previous: Record, current: Record): seq<Finding> {
    Only(Breaks(MovedLibrary, previous, current), MovedLibrary, current) +
    Only(Breaks(MovedHeader, previous, current), MovedHeader, current)
  }

  function Losses(previous: Record, current: Record): seq<Finding> {
    Only(Breaks(LostLinux, previous, current), LostLinux, current) +
    Only(Breaks(LostMacos, previous, current), LostMacos, current) +
    Only(Breaks(LostFreebsd, previous, current), LostFreebsd, current)
  }

  /** The findings about one pair, in the order in which they are reported: all about the new record. */
  function PairFindings(previous: Record, current: Record): seq<Finding> {
    Moves(previous, current) + Losses(previous, current) +
    Only(Breaks(SignatureRule(previous.kind), previous, current), SignatureRule(previous.kind), current) +
    Only(Breaks(Ownership, previous, current), Ownership, current)
  }

  method FindMoves(previous: Record, current: Record) returns (findings: seq<Finding>)
    ensures findings == Moves(previous, current)
  {
    findings := [];
    if previous.library != current.library {
      findings := findings + [Finding(MovedLibrary, current)];
    } else if previous.header != [] && previous.header != current.header {
      findings := findings + [Finding(MovedHeader, current)];
    }
  }

  method FindLosses(previous: Record, current: Record) returns (findings: seq<Finding>)
    ensures findings == Losses(previous, current)
  {
    findings := [];
    if previous.linux == "yes" && current.linux != "yes" {
      findings := findings + [Finding(LostLinux, current)];
    }
    if previous.macos == "yes" && current.macos != "yes" {
      findings := findings + [Finding(LostMacos, current)];
    }
    if previous.freebsd == "yes" && current.freebsd != "yes" {
      findings := findings + [Finding(LostFreebsd, current)];
    }
  }

  method ComparePair(previous: Record, current: Record) returns (findings: seq<Finding>)
    ensures findings == PairFindings(previous, current)
  {
    hide Moves, Losses;
    findings := FindMoves(previous, current);
    var losses := FindLosses(previous, current);
    findings := findings + losses;
    if previous.signature != [] && current.signature != [] && previous.signature != current.signature {
      var rule := FunctionType;
      if previous.kind == "type-layout" {
        rule := TypeLayout;
      } else if previous.kind == "enum-value" {
        rule := EnumValue;
      } else if previous.kind == "macro-value" {
        rule := MacroValue;
      }
      findings := findings + [Finding(rule, current)];
    }
    if previous.ownership != "-" && previous.ownership != current.ownership {
      findings := findings + [Finding(Ownership, current)];
    }
  }

  /** A finding names a broken rule and the new record, and every broken rule has its finding. */
  lemma ReportedIffBroken(previous: Record, current: Record, finding: Finding)
    ensures finding in PairFindings(previous, current) <==>
      finding.record == current && Breaks(finding.rule, previous, current)
  {
    var signature, rule := SignatureRule(previous.kind), finding.rule;
    var moves, losses := Moves(previous, current), Losses(previous, current);
    var rest := Only(Breaks(signature, previous, current), signature, current) +
      Only(Breaks(Ownership, previous, current), Ownership, current);
    assert PairFindings(previous, current) == moves + losses + rest;
    var broken := finding.record == current && Breaks(rule, previous, current);
    assert finding in moves <==> (rule.MovedLibrary? || rule.MovedHeader?) && broken;
    assert finding in losses <==> (rule.LostLinux? || rule.LostMacos? || rule.LostFreebsd?) && broken;
    assert finding in rest <==> (rule == signature || rule.Ownership?) && broken;
  }

  /** Nothing is reported exactly when the versions are compatible. */
  lemma SilentIffCompatible(previous: Record, current: Record)
    ensures PairFindings(previous, current) == [] <==> Compatible(previous, current)
  {
    hide PairFindings, Breaks;
    forall finding
      ensures finding in PairFindings(previous, current) <==>
        finding.record == current && Breaks(finding.rule, previous, current)
    {
      ReportedIffBroken(previous, current, finding);
    }
    var findings := PairFindings(previous, current);
    if findings != [] {
      assert findings[0] in findings;
    } else {
      forall rule
        ensures !Breaks(rule, previous, current)
      {
        assert Finding(rule, current) !in findings;
      }
    }
  }

  // The same in the fields of the records.

  predicate KeepsPlatforms(previous: Record, current: Record) {
    && (previous.linux == "yes" ==> current.linux == "yes")
    && (previous.macos == "yes" ==> current.macos == "yes")
    && (previous.freebsd == "yes" ==> current.freebsd == "yes")
  }

  /** The library, a known header, every supported platform, a declared ownership, and a signature that both know. */
  predicate KeepsPromises(previous: Record, current: Record) {
    && current.library == previous.library
    && (previous.header == [] || current.header == previous.header)
    && KeepsPlatforms(previous, current)
    && (previous.ownership == "-" || current.ownership == previous.ownership)
    && SignatureKept(previous, current)
  }

  lemma CompatibleIff(previous: Record, current: Record)
    ensures Compatible(previous, current) <==> KeepsPromises(previous, current)
  {
    if Compatible(previous, current) {
      assert !Breaks(MovedLibrary, previous, current) && !Breaks(MovedHeader, previous, current);
      assert !Breaks(LostLinux, previous, current) && !Breaks(LostMacos, previous, current);
      assert !Breaks(LostFreebsd, previous, current) && !Breaks(Ownership, previous, current);
      assert !Breaks(SignatureRule(previous.kind), previous, current);
    }
  }

  /** A lost platform, a changed ownership and a move have their own findings; a move to another library hides a move to
      another header. */
  lemma RulesTell(previous: Record, current: Record)
    ensures var findings := PairFindings(previous, current);
      && (Finding(LostLinux, current) in findings <==> previous.linux == "yes" && current.linux != "yes")
      && (Finding(LostMacos, current) in findings <==> previous.macos == "yes" && current.macos != "yes")
      && (Finding(LostFreebsd, current) in findings <==> previous.freebsd == "yes" && current.freebsd != "yes")
      && (Finding(MovedLibrary, current) in findings <==> previous.library != current.library)
      && (Finding(MovedHeader, current) in findings <==>
            previous.library == current.library && previous.header != [] && current.header != previous.header)
      && (Finding(Ownership, current) in findings <==>
            previous.ownership != "-" && current.ownership != previous.ownership)
      && Finding(Removed, current) !in findings
  {
    RulesAreBroken(previous, current);
    hide PairFindings, SignatureRule;
  }

  /** A changed signature has the finding of the old record's kind. */
  lemma SignatureRulesTell(previous: Record, current: Record)
    ensures var findings, changed := PairFindings(previous, current), !SignatureKept(previous, current);
      && (Finding(TypeLayout, current) in findings <==> changed && previous.kind == "type-layout")
      && (Finding(EnumValue, current) in findings <==> changed && previous.kind == "enum-value")
      && (Finding(MacroValue, current) in findings <==> changed && previous.kind == "macro-value")
      && (Finding(FunctionType, current) in findings <==>
            changed && previous.kind !in {"type-layout", "enum-value", "macro-value"})
  {
    RulesAreBroken(previous, current);
    hide PairFindings;
  }

  lemma RulesAreBroken(previous: Record, current: Record)
    ensures forall rule ::
      Finding(rule, current) in PairFindings(previous, current) <==> Breaks(rule, previous, current)
  {
    forall rule
      ensures Finding(rule, current) in PairFindings(previous, current) <==> Breaks(rule, previous, current)
    {
      ReportedIffBroken(previous, current, Finding(rule, current));
    }
  }

  /** Promises compose, but for the signature that a middle version may have dropped. */
  lemma CompatibleComposes(first: Record, middle: Record, last: Record)
    requires Compatible(first, middle) && Compatible(middle, last)
    ensures Compatible(first, last) <==> SignatureKept(first, last)
    ensures middle.signature != [] ==> SignatureKept(first, last)
  {
    assert !Breaks(MovedLibrary, first, middle) && !Breaks(MovedLibrary, middle, last);
    assert !Breaks(SignatureRule(first.kind), first, middle) && !Breaks(SignatureRule(middle.kind), middle, last);
    if SignatureKept(first, last) {
      forall rule
        ensures !Breaks(rule, first, last)
      {
        assert !Breaks(rule, first, middle) && !Breaks(rule, middle, last);
      }
    } else {
      assert Breaks(SignatureRule(first.kind), first, last);
    }
  }

  predicate SignatureKept(previous: Record, current: Record) {
    previous.signature == [] || current.signature == [] || previous.signature == current.signature
  }

  // Judging two snapshots.

  function FindingsOf(previous: Record, after: seq<Record>): seq<Finding> {
    if HasUsr(after, previous.usr) then PairFindings(previous, FirstOf(after, previous.usr))
    else [Finding(Removed, previous)]
  }

  function AllFindings(before: seq<Record>, after: seq<Record>): seq<Finding> {
    if before == [] then [] else AllFindings(before[..|before| - 1], after) + FindingsOf(before[|before| - 1], after)
  }

  function Additions(before: seq<Record>, after: seq<Record>): nat {
    |set i: nat | i < |after| && !HasUsr(before, after[i].usr)|
  }

  /** The command: findings in the order of the old snapshot, and the number of records that have no predecessor. */
  method Compare(before: seq<Record>, after: seq<Record>) returns (findings: seq<Finding>, additions: nat)
    ensures findings == AllFindings(before, after)
    ensures additions == Additions(before, after)
  {
    hide HasUsr, FirstOf, PairFindings, Additions;
    findings := [];
    for index := 0 to |before|
      invariant findings == AllFindings(before[..index], after)
    {
      var previous := before[index];
      assert before[..index + 1][..index] == before[..index];
      var current := FindRecord(after, previous.usr);
      if current.None? {
        findings := findings + [Finding(Removed, previous)];
        continue;
      }
      var broken := ComparePair(previous, current.value);
      findings := findings + broken;
    }
    assert before[..|before|] == before;
    additions := CountAdditions(before, after);
  }

  method CountAdditions(before: seq<Record>, after: seq<Record>) returns (additions: nat)
    ensures additions == Additions(before, after)
  {
    hide HasUsr, FirstOf;
    additions := 0;
    ghost var added: set<nat> := {};
    for index := 0 to |after|
      invariant added == set i: nat | i < index && !HasUsr(before, after[i].usr)
      invariant additions == |added|
    {
      var predecessor := FindRecord(before, after[index].usr);
      if predecessor.None? {
        additions := additions + 1;
        added := added + {index};
      }
    }
  }

  // Compatibility of snapshots.

  ghost predicate Clean(before: seq<Record>, after: seq<Record>) {
    AllFindings(before, after) == []
  }

  ghost predicate HasCompatible(previous: Record, after: seq<Record>) {
    HasUsr(after, previous.usr) && Compatible(previous, FirstOf(after, previous.usr))
  }

  /** No finding means: every old record has a compatible successor. */
  lemma {:induction false} CleanIff(before: seq<Record>, after: seq<Record>)
    ensures Clean(before, after) <==> forall i :: 0 <= i < |before| ==> HasCompatible(before[i], after)
  {
    hide HasUsr, FirstOf, PairFindings, Compatible;
    if before != [] {
      var front, last := before[..|before| - 1], before[|before| - 1];
      CleanIff(front, after);
      if HasUsr(after, last.usr) {
        SilentIffCompatible(last, FirstOf(after, last.usr));
      }
      assert forall i :: 0 <= i < |front| ==> front[i] == before[i];
    }
  }

  /** What repeats an identity is compatible with the record that had it first. */
  ghost predicate RepeatsAreCompatible(records: seq<Record>) {
    forall i: nat, first: nat :: first < i < |records| && IsFirstOf(records, first, records[i].usr) ==>
      Compatible(records[i], records[first])
  }

  ghost predicate IsFirstOf(records: seq<Record>, first: nat, usr: Text)
    requires first < |records|
  {
    records[first].usr == usr && forall k :: 0 <= k < first ==> records[k].usr != usr
  }

  lemma {:induction false} HasFirst(records: seq<Record>, i: nat) returns (first: nat)
    requires i < |records|
    ensures first <= i && IsFirstOf(records, first, records[i].usr)
    ensures HasUsr(records, records[i].usr) && FirstOf(records, records[i].usr) == records[first]
    decreases i
  {
    if k: nat :| k < i && records[k].usr == records[i].usr {
      first := HasFirst(records, k);
    } else {
      first := i;
      FirstIs(records, records[i].usr, i);
    }
  }

  lemma OneFirst(records: seq<Record>, first: nat, other: nat, usr: Text)
    requires first < |records| && other < |records|
    requires IsFirstOf(records, first, usr) && IsFirstOf(records, other, usr)
    ensures first == other
  {
  }

  /** Every finding is about an old record: that it has no successor, or what it and its first successor show. */
  lemma {:induction false} ReportedIff(before: seq<Record>, after: seq<Record>, finding: Finding)
    ensures finding in AllFindings(before, after) <==>
      exists previous :: previous in before && IsAbout(finding, previous, after)
  {
    hide IsAbout, FindingsOf;
    if before != [] {
      var front, last := before[..|before| - 1], before[|before| - 1];
      assert before == front + [last];
      ReportedIff(front, after, finding);
      AboutIff(finding, last, after);
    }
  }

  ghost predicate IsAbout(finding: Finding, previous: Record, after: seq<Record>) {
    if exists current :: current in after && current.usr == previous.usr
    then
      exists k: nat ::
        k < |after| && IsFirstOf(after, k, previous.usr) && finding in PairFindings(previous, after[k])
    else finding == Finding(Removed, previous)
  }

  lemma AboutIff(finding: Finding, previous: Record, after: seq<Record>)
    ensures finding in FindingsOf(previous, after) <==> IsAbout(finding, previous, after)
  {
    hide PairFindings, FirstOf;
    if current :| current in after && current.usr == previous.usr {
      var i: nat :| i < |after| && after[i] == current;
      var first := HasFirst(after, i);
      forall k: nat | k < |after| && IsFirstOf(after, k, previous.usr)
        ensures k == first
      {
        OneFirst(after, k, first, previous.usr);
      }
    }
  }

  /** What a clean comparison preserves: the first successor of every old record keeps its promises. */
  lemma CleanKeepsPromises(before: seq<Record>, after: seq<Record>)
    ensures Clean(before, after) <==> forall i :: 0 <= i < |before| ==> HasFaithful(before[i], after)
  {
    hide FirstOf, AllFindings, HasUsr, Compatible, KeepsPromises;
    CleanIff(before, after);
    forall i | 0 <= i < |before|
      ensures HasFaithful(before[i], after) <==> HasCompatible(before[i], after)
    {
      FaithfulIff(before[i], after);
    }
  }

  ghost predicate HasFaithful(previous: Record, after: seq<Record>) {
    exists k: nat :: k < |after| && IsFirstOf(after, k, previous.usr) && KeepsPromises(previous, after[k])
  }

  lemma FaithfulIff(previous: Record, after: seq<Record>)
    ensures HasFaithful(previous, after) <==> HasCompatible(previous, after)
  {
    hide Compatible, KeepsPromises, FirstOf;
    if HasUsr(after, previous.usr) {
      var i: nat :| i < |after| && after[i].usr == previous.usr;
      var first := HasFirst(after, i);
      CompatibleIff(previous, after[first]);
      forall k: nat | k < |after| && IsFirstOf(after, k, previous.usr)
        ensures k == first
      {
        OneFirst(after, k, first, previous.usr);
      }
    }
  }

  lemma FirstDecides(records: seq<Record>, i: nat)
    requires i < |records|
    ensures HasCompatible(records[i], records) <==>
      forall first: nat :: first < i && IsFirstOf(records, first, records[i].usr) ==>
        Compatible(records[i], records[first])
  {
    hide FirstOf, HasUsr;
    var found := HasFirst(records, i);
    forall first: nat | first < i && IsFirstOf(records, first, records[i].usr)
      ensures first == found
    {
      OneFirst(records, first, found, records[i].usr);
    }
  }

  /** A snapshot is compatible with itself exactly when its repeated identities, if any, are.  It never adds to
      itself. */
  lemma ReflexiveIffRepeatsAreCompatible(records: seq<Record>)
    ensures Clean(records, records) <==> RepeatsAreCompatible(records)
    ensures UniqueUsrs(records) ==> Clean(records, records)
    ensures Additions(records, records) == 0
  {
    hide FirstOf, Compatible;
    CleanIff(records, records);
    forall i | 0 <= i < |records|
      ensures HasCompatible(records[i], records) <==>
        forall first: nat :: first < i && IsFirstOf(records, first, records[i].usr) ==>
          Compatible(records[i], records[first])
    {
      FirstDecides(records, i);
    }
    assert (set i: nat | i < |records| && !HasUsr(records, records[i].usr)) == {};
  }

  /** With a repeated identity a snapshot need not be compatible with itself: the lookup always meets the first one. */
  lemma RepetitionBreaksReflexivity(one: Record)
    ensures !Clean([one, one.(library := one.library + "x")], [one, one.(library := one.library + "x")])
  {
    var records := [one, one.(library := one.library + "x")];
    FirstIs(records, one.usr, 0);
    assert Breaks(MovedLibrary, records[1], records[0]);
    assert !HasCompatible(records[1], records);
    CleanIff(records, records);
  }
}
