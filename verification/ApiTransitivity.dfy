/** When "the comparison reports nothing" carries over from one snapshot to all later ones.  Loaded snapshots may repeat
    an identity, so a successor must keep the promises of several records at once. */
module ApiTransitivity {
  import opened CStrings
  import opened ApiSnapshot
  import opened ApiCompare

  /** What is clean after `b` is clean after `a`. */
  ghost predicate CarriesOver(a: seq<Record>, b: seq<Record>) {
    forall c :: Clean(b, c) ==> Clean(a, c)
  }

  // Which snapshots have a clean successor.

  /** Two records that one successor can follow. */
  predicate Agree(left: Record, right: Record) {
    && left.library == right.library
    && (left.header == [] || right.header == [] || left.header == right.header)
    && (left.ownership == "-" || right.ownership == "-" || left.ownership == right.ownership)
  }

  ghost predicate RepeatsAgree(records: seq<Record>) {
    forall i, j :: 0 <= i < |records| && 0 <= j < |records| && records[i].usr == records[j].usr ==>
      Agree(records[i], records[j])
  }

  /** The last value of a field that says something among the records of an identity. */
  function Pick(records: seq<Record>, usr: Text, field: Record -> Text, nothing: Text): (value: Text)
    ensures value != nothing ==> exists k :: 0 <= k < |records| && records[k].usr == usr && field(records[k]) == value
    ensures value == nothing ==>
      forall k :: 0 <= k < |records| && records[k].usr == usr ==> field(records[k]) == nothing
  {
    if records == [] then nothing
    else
      var front, last := records[..|records| - 1], records[|records| - 1];
      assert forall k :: 0 <= k < |front| ==> records[k] == front[k];
      if last.usr == usr && field(last) != nothing then field(last) else Pick(front, usr, field, nothing)
  }

  /** A record that keeps every promise made about its identity. */
  function Successor(records: seq<Record>, usr: Text, signature: Text): Record
    requires HasUsr(records, usr)
  {
    FirstOf(records, usr).(
      header := Pick(records, usr, (r: Record) => r.header, []),
      ownership := Pick(records, usr, (r: Record) => r.ownership, "-"),
      linux := "yes", macos := "yes", freebsd := "yes", signature := signature)
  }

  lemma SuccessorIsCompatible(records: seq<Record>, i: nat, signature: Text)
    requires i < |records| && RepeatsAgree(records)
    requires signature == [] || records[i].signature == [] || records[i].signature == signature
    ensures HasUsr(records, records[i].usr)
    ensures Compatible(records[i], Successor(records, records[i].usr, signature))
  {
    var usr := records[i].usr;
    var first := HasFirst(records, i);
    var header := Pick(records, usr, (r: Record) => r.header, []);
    var ownership := Pick(records, usr, (r: Record) => r.ownership, "-");
    hide FirstOf, HasUsr, Pick;
    assert Agree(records[i], records[first]);
    if header != [] {
      var k :| 0 <= k < |records| && records[k].usr == usr && records[k].header == header;
      assert Agree(records[i], records[k]);
    }
    if ownership != "-" {
      var k :| 0 <= k < |records| && records[k].usr == usr && records[k].ownership == ownership;
      assert Agree(records[i], records[k]);
    }
  }

  /** One successor for every record; only those of one identity get a signature. */
  ghost function Successors(records: seq<Record>, usr: Text, signature: Text): (after: seq<Record>)
    ensures |after| == |records|
    ensures forall i :: 0 <= i < |records| ==> HasUsr(records, records[i].usr)
    ensures forall i :: 0 <= i < |records| ==>
      after[i] == Successor(records, records[i].usr, if records[i].usr == usr then signature else [])
  {
    assert forall i :: 0 <= i < |records| ==> HasUsr(records, records[i].usr);
    seq(|records|, i requires 0 <= i < |records| =>
      Successor(records, records[i].usr, if records[i].usr == usr then signature else []))
  }

  lemma FirstSuccessor(records: seq<Record>, usr: Text, signature: Text, i: nat)
    requires i < |records|
    ensures var after := Successors(records, usr, signature);
      HasUsr(after, records[i].usr) && FirstOf(after, records[i].usr) == after[i]
  {
    var after := Successors(records, usr, signature);
    hide Successors, Successor, FirstOf, HasUsr;
    SuccessorKeepsUsr(records, records[i].usr);
    forall j | 0 <= j < |records|
      ensures after[j].usr == records[j].usr
    {
      SuccessorKeepsUsr(records, records[j].usr);
    }
    var first := HasFirst(after, i);
  }

  lemma SuccessorKeepsUsr(records: seq<Record>, usr: Text)
    requires HasUsr(records, usr)
    ensures forall signature :: Successor(records, usr, signature).usr == usr
  {
    hide Pick;
  }

  lemma SuccessorsAreClean(records: seq<Record>, usr: Text, signature: Text)
    requires RepeatsAgree(records)
    requires forall i :: 0 <= i < |records| && records[i].usr == usr ==>
      records[i].signature == [] || records[i].signature == signature
    ensures Clean(records, Successors(records, usr, signature))
  {
    hide Successors, Successor, FirstOf, HasUsr, Compatible, RepeatsAgree;
    var after := Successors(records, usr, signature);
    forall i | 0 <= i < |records|
      ensures HasCompatible(records[i], after)
    {
      FirstSuccessor(records, usr, signature, i);
      SuccessorIsCompatible(records, i, if records[i].usr == usr then signature else []);
    }
    CleanIff(records, after);
  }

  /** A snapshot can be followed without a finding exactly when its repeated identities agree. */
  lemma HasCleanSuccessorIff(records: seq<Record>)
    ensures (exists after :: Clean(records, after)) <==> RepeatsAgree(records)
  {
    if after :| Clean(records, after) {
      forall i, j | 0 <= i < |records| && 0 <= j < |records| && records[i].usr == records[j].usr
        ensures Agree(records[i], records[j])
      {
        CommonSuccessor(records, after, i, j);
      }
    } else if RepeatsAgree(records) {
      NothingIsUnnamed(records);
    }
  }

  lemma CommonSuccessor(records: seq<Record>, after: seq<Record>, i: nat, j: nat)
    requires i < |records| && j < |records| && records[i].usr == records[j].usr && Clean(records, after)
    ensures Agree(records[i], records[j])
  {
    CleanIff(records, after);
    hide FirstOf, HasUsr, Clean;
    assert HasCompatible(records[i], after) && HasCompatible(records[j], after);
    var next := FirstOf(after, records[i].usr);
    AgreeWithSuccessor(records[i], next);
    AgreeWithSuccessor(records[j], next);
  }

  lemma AgreeWithSuccessor(record: Record, next: Record)
    requires Compatible(record, next)
    ensures record.library == next.library
    ensures record.header == [] || record.header == next.header
    ensures record.ownership == "-" || record.ownership == next.ownership
  {
    assert !Breaks(MovedLibrary, record, next) && !Breaks(MovedHeader, record, next);
    assert !Breaks(Ownership, record, next);
  }

  /** Successors without any signature. */
  lemma NothingIsUnnamed(records: seq<Record>)
    requires RepeatsAgree(records)
    ensures exists after :: Clean(records, after)
  {
    hide Clean, RepeatsAgree;
    var usr: Text := Unused(records);
    SuccessorsAreClean(records, usr, []);
  }

  /** An identity that no record has. */
  function Unused(records: seq<Record>): (usr: Text)
    ensures forall i :: 0 <= i < |records| ==> |records[i].usr| < |usr|
  {
    if records == [] then "x"
    else
      var usr := Unused(records[..|records| - 1]);
      if |records[|records| - 1].usr| < |usr| then usr else records[|records| - 1].usr + "x"
  }

  // When it carries over.

  /** Whatever follows `b` cannot have another signature: `b` has the record's signature, or two different ones. */
  ghost predicate IsPinned(record: Record, b: seq<Record>) {
    exists k, l :: 0 <= k < |b| && 0 <= l < |b| && b[k].usr == b[l].usr == record.usr && Pins(record, b[k], b[l])
  }

  predicate Pins(record: Record, left: Record, right: Record) {
    && left.signature != [] && right.signature != []
    && (left.signature == record.signature || left.signature != right.signature)
  }

  ghost predicate SignaturesPinned(a: seq<Record>, b: seq<Record>) {
    forall i :: 0 <= i < |a| && a[i].signature != [] ==> IsPinned(a[i], b)
  }

  lemma CleanComposes(a: seq<Record>, b: seq<Record>, c: seq<Record>)
    requires Clean(a, b) && Clean(b, c) && SignaturesPinned(a, b)
    ensures Clean(a, c)
  {
    CleanIff(a, b);
    CleanIff(b, c);
    CleanIff(a, c);
    hide FirstOf, HasUsr, Clean, Compatible, SignatureKept, IsPinned;
    forall i | 0 <= i < |a|
      ensures HasCompatible(a[i], c)
    {
      assert HasCompatible(a[i], b);
      var middle := FirstOf(b, a[i].usr);
      var k :| 0 <= k < |b| && b[k] == middle;
      assert HasCompatible(b[k], c);
      var next := FirstOf(c, a[i].usr);
      if a[i].signature != [] {
        PinnedIsKept(a[i], b, c);
      }
      assert SignatureKept(a[i], next) by {
        KeptWithout(a[i], next);
      }
      CompatibleComposes(a[i], middle, next);
    }
  }

  lemma KeptWithout(record: Record, next: Record)
    ensures record.signature == [] ==> SignatureKept(record, next)
  {
  }

  lemma PinnedIsKept(record: Record, b: seq<Record>, c: seq<Record>)
    requires IsPinned(record, b) && HasUsr(c, record.usr)
    requires forall i :: 0 <= i < |b| ==> HasCompatible(b[i], c)
    ensures SignatureKept(record, FirstOf(c, record.usr))
  {
    hide FirstOf, HasUsr, Compatible;
    var k, l :| 0 <= k < |b| && 0 <= l < |b| && b[k].usr == b[l].usr == record.usr && Pins(record, b[k], b[l]);
    assert HasCompatible(b[k], c) && HasCompatible(b[l], c);
    KeptBySuccessor(b[k], FirstOf(c, record.usr));
    KeptBySuccessor(b[l], FirstOf(c, record.usr));
  }

  lemma KeptBySuccessor(record: Record, next: Record)
    requires Compatible(record, next)
    ensures SignatureKept(record, next)
  {
    assert !Breaks(SignatureRule(record.kind), record, next);
  }

  /** A signature that `b` allows and that breaks the record's promise. */
  function OtherSignature(record: Record, b: seq<Record>): Text {
    var signature := Pick(b, record.usr, (r: Record) => r.signature, []);
    if signature == [] then record.signature + "x" else signature
  }

  lemma OtherSignatureIsAllowed(record: Record, b: seq<Record>)
    requires record.signature != [] && !IsPinned(record, b)
    ensures OtherSignature(record, b) != [] && OtherSignature(record, b) != record.signature
    ensures forall i :: 0 <= i < |b| && b[i].usr == record.usr ==>
      b[i].signature == [] || b[i].signature == OtherSignature(record, b)
  {
    var signature := Pick(b, record.usr, (r: Record) => r.signature, []);
    hide Pick, IsPinned;
    if signature != [] {
      var k :| 0 <= k < |b| && b[k].usr == record.usr && b[k].signature == signature;
      forall i | 0 <= i < |b| && b[i].usr == record.usr && b[i].signature != []
        ensures b[i].signature == signature != record.signature
      {
        NotPinned(record, b, k, i);
      }
    }
  }

  lemma NotPinned(record: Record, b: seq<Record>, k: nat, l: nat)
    requires !IsPinned(record, b) && k < |b| && l < |b| && b[k].usr == b[l].usr == record.usr
    ensures !Pins(record, b[k], b[l])
  {
  }

  lemma NotCarriedOver(a: seq<Record>, i: nat, b: seq<Record>)
    requires Clean(a, b) && RepeatsAgree(b)
    requires i < |a| && a[i].signature != [] && !IsPinned(a[i], b)
    ensures !CarriesOver(a, b)
  {
    hide *;
    var signature := OtherSignature(a[i], b);
    OtherSignatureIsAllowed(a[i], b);
    SuccessorsAreClean(b, a[i].usr, signature);
    var k := MetBy(a, i, b);
    SuccessorsSpell(b, a[i].usr, signature, k);
    BrokenSignature(a, i, Successors(b, a[i].usr, signature));
    ThroughOne(a, b, Successors(b, a[i].usr, signature));
  }

  lemma ThroughOne(a: seq<Record>, b: seq<Record>, c: seq<Record>)
    requires Clean(b, c) && !Clean(a, c)
    ensures !CarriesOver(a, b)
  {
    hide Clean;
  }

  lemma MetBy(a: seq<Record>, i: nat, b: seq<Record>) returns (k: nat)
    requires Clean(a, b) && i < |a|
    ensures k < |b| && b[k].usr == a[i].usr
  {
    CleanIff(a, b);
    hide Clean;
    assert HasCompatible(a[i], b);
    k :| 0 <= k < |b| && b[k].usr == a[i].usr;
  }

  lemma SuccessorsSpell(b: seq<Record>, usr: Text, signature: Text, k: nat)
    requires k < |b| && b[k].usr == usr
    ensures var c := Successors(b, usr, signature); HasUsr(c, usr) && FirstOf(c, usr).signature == signature
  {
    FirstSuccessor(b, usr, signature, k);
    hide Successors, FirstOf, HasUsr, Pick;
  }

  lemma BrokenSignature(a: seq<Record>, i: nat, c: seq<Record>)
    requires i < |a| && a[i].signature != [] && HasUsr(c, a[i].usr)
    requires FirstOf(c, a[i].usr).signature != [] && FirstOf(c, a[i].usr).signature != a[i].signature
    ensures !Clean(a, c)
  {
    CleanIff(a, c);
    hide FirstOf, HasUsr, Clean;
    assert Breaks(SignatureRule(a[i].kind), a[i], FirstOf(c, a[i].usr));
    assert !HasCompatible(a[i], c);
  }

  /** For every middle snapshot: "no finding" carries over to all later ones exactly when nothing can follow it without
      a finding, or it pins every signature of the first. */
  lemma CarriesOverIff(a: seq<Record>, b: seq<Record>)
    requires Clean(a, b)
    ensures CarriesOver(a, b) <==> !RepeatsAgree(b) || SignaturesPinned(a, b)
  {
    HasCleanSuccessorIff(b);
    hide Clean, RepeatsAgree, IsPinned;
    if SignaturesPinned(a, b) {
      forall c | Clean(b, c)
        ensures Clean(a, c)
      {
        CleanComposes(a, b, c);
      }
    } else if RepeatsAgree(b) {
      var i: nat :| i < |a| && a[i].signature != [] && !IsPinned(a[i], b);
      NotCarriedOver(a, i, b);
    }
  }

  // Snapshots with distinct identities.

  /** Every old record that has a signature meets a record with a signature. */
  ghost predicate SignaturesStay(before: seq<Record>, after: seq<Record>) {
    forall i :: 0 <= i < |before| && before[i].signature != [] && HasUsr(after, before[i].usr) ==>
      FirstOf(after, before[i].usr).signature != []
  }

  /** Among them it carries over exactly when no signature was lost on the way. */
  lemma TransitiveIffSignaturesStay(a: seq<Record>, b: seq<Record>)
    requires Clean(a, b) && UniqueUsrs(b)
    ensures CarriesOver(a, b) <==> SignaturesStay(a, b)
  {
    CarriesOverIff(a, b);
    assert RepeatsAgree(b);
    CleanIff(a, b);
    hide CarriesOver, Clean, FirstOf, RepeatsAgree;
    forall i | 0 <= i < |a| && a[i].signature != []
      ensures IsPinned(a[i], b) <==> FirstOf(b, a[i].usr).signature != []
    {
      assert HasCompatible(a[i], b);
      PinnedByFirst(a[i], b);
    }
  }

  lemma PinnedByFirst(record: Record, b: seq<Record>)
    requires HasCompatible(record, b) && record.signature != []
    ensures FirstOf(b, record.usr).signature != [] ==> IsPinned(record, b)
    ensures UniqueUsrs(b) ==> (IsPinned(record, b) <==> FirstOf(b, record.usr).signature != [])
  {
    hide FirstOf, Compatible;
    var middle := FirstOf(b, record.usr);
    KeptBySuccessor(record, middle);
    var k :| 0 <= k < |b| && b[k] == middle;
    assert middle.signature != [] ==> Pins(record, b[k], b[k]);
  }

  /** The snapshots the tool writes have a signature in every record: among them compatibility is transitive. */
  lemma CompareIsTransitive(a: seq<Record>, b: seq<Record>, c: seq<Record>)
    requires forall i :: 0 <= i < |b| ==> b[i].signature != []
    requires Clean(a, b) && Clean(b, c)
    ensures Clean(a, c)
  {
    CleanIff(a, b);
    hide Clean, FirstOf, IsPinned;
    forall i | 0 <= i < |a| && a[i].signature != []
      ensures IsPinned(a[i], b)
    {
      assert HasCompatible(a[i], b);
      PinnedByFirst(a[i], b);
    }
    CleanComposes(a, b, c);
  }
}
