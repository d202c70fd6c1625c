/** API snapshots: sorting the records by identity and refusing duplicates. */
module ApiSnapshot {
  import opened CStrings
  import opened FactOrder

  datatype Record = Record(
    name: Text,
    usr: Text,
    library: Text,
    provenance: Text,
    header: Text,
    linux: Text,
    macos: Text,
    freebsd: Text,
    signature: Text,
    ownership: Text,
    kind: Text)

  ghost predicate UniqueUsrs(records: seq<Record>) {
    forall i, j :: 0 <= i < j < |records| ==> records[i].usr != records[j].usr
  }

  ghost predicate SortedByUsr(records: seq<Record>) {
    forall i, j :: 0 <= i < j < |records| ==> CompareTextOf(records[i].usr, records[j].usr) <= 0
  }

  // Insertion sort.

  /** Place `value` behind everything that is not greater. */
  function Insert(sorted: seq<Record>, value: Record): (inserted: seq<Record>)
    ensures |inserted| == |sorted| + 1
  {
    if sorted == [] || CompareTextOf(sorted[|sorted| - 1].usr, value.usr) <= 0 then sorted + [value]
    else Insert(sorted[..|sorted| - 1], value) + [sorted[|sorted| - 1]]
  }

  function Sort(records: seq<Record>): (sorted: seq<Record>)
    ensures |sorted| == |records|
  {
    if records == [] then [] else Insert(Sort(records[..|records| - 1]), records[|records| - 1])
  }

  method SortRecords(records: array<Record>)
    modifies records
    ensures records[..] == Sort(old(records[..]))
  {
    hide CompareTextOf, Insert, Sort;
    ghost var before := records[..];
    SortFirst(before);
    var outer := 1;
    while outer < records.Length
      invariant outer >= 1 && records.Length == |before|
      invariant if records.Length == 0 then records[..] == before
                else outer <= records.Length
                     && records[..outer] == Sort(before[..outer]) && records[outer..] == before[outer..]
    {
      assert records[outer] == before[outer];
      SortStep(before, outer);
      InsertOne(records, outer);
      outer := outer + 1;
    }
    assert before != [] ==> before[..outer] == before && records[..outer] == records[..];
  }

  lemma SortFirst(records: seq<Record>)
    ensures if records == [] then Sort(records) == records else Sort(records[..1]) == records[..1]
  {
  }

  lemma SortStep(records: seq<Record>, n: nat)
    requires n < |records|
    ensures Sort(records[..n + 1]) == Insert(Sort(records[..n]), records[n])
  {
    assert records[..n + 1][..n] == records[..n];
  }

  /** The insertion point is behind the last record that is not greater. */
  lemma {:induction false} InsertIs(sorted: seq<Record>, value: Record, k: nat)
    requires k <= |sorted|
    requires k == 0 || CompareTextOf(sorted[k - 1].usr, value.usr) <= 0
    requires forall i :: k <= i < |sorted| ==> CompareTextOf(sorted[i].usr, value.usr) > 0
    ensures Insert(sorted, value) == sorted[..k] + [value] + sorted[k..]
  {
    hide CompareTextOf;
    if k == |sorted| {
      assert sorted[..k] == sorted && sorted[k..] == [];
    } else {
      var front, last := sorted[..|sorted| - 1], sorted[|sorted| - 1];
      assert Insert(sorted, value) == Insert(front, value) + [last];
      hide Insert;
      InsertIs(front, value, k);
      assert front[..k] == sorted[..k];
      assert front[k..] + [last] == sorted[k..];
    }
  }

  lemma InsertedAt(before: seq<Record>, after: seq<Record>, outer: nat, inner: nat)
    requires inner <= outer < |before| == |after|
    requires inner == 0 || CompareTextOf(before[inner - 1].usr, before[outer].usr) <= 0
    requires forall i: nat :: inner <= i < outer ==> CompareTextOf(before[i].usr, before[outer].usr) > 0
    requires forall i: nat :: i < inner || outer < i < |before| ==> after[i] == before[i]
    requires after[inner] == before[outer]
    requires forall i: nat :: inner < i <= outer ==> after[i] == before[i - 1]
    ensures after[..outer + 1] == Insert(before[..outer], before[outer])
    ensures after[outer + 1..] == before[outer + 1..]
  {
    hide *;
    var sorted := before[..outer];
    InsertIs(sorted, before[outer], inner);
    assert after[..outer + 1] == sorted[..inner] + [before[outer]] + sorted[inner..];
  }

  /** One turn of the outer loop: shift the greater records up and drop the value into the gap. */
  method InsertOne(records: array<Record>, outer: nat)
    requires outer < records.Length
    modifies records
    ensures records[..outer + 1] == Insert(old(records[..outer]), old(records[outer]))
    ensures records[outer + 1..] == old(records[outer + 1..])
  {
    hide CompareTextOf, Insert;
    ghost var before := records[..];
    var value := records[outer];
    var inner := outer;
    while inner > 0
      invariant inner <= outer
      invariant forall i: nat :: i < records.Length && (i < inner || i > outer) ==> records[i] == before[i]
      invariant forall i: nat :: inner < i <= outer ==> records[i] == before[i - 1]
      invariant forall i: nat :: inner <= i < outer ==> CompareTextOf(before[i].usr, value.usr) > 0
    {
      if CompareTextOf(records[inner - 1].usr, value.usr) <= 0 {
        break;
      }
      records[inner] := records[inner - 1];
      inner := inner - 1;
    }
    records[inner] := value;
    InsertedAt(before, records[..], outer, inner);
  }

  // Sorted, stable, a permutation.

  lemma {:induction false} InsertKeepsRecords(sorted: seq<Record>, value: Record)
    ensures multiset(Insert(sorted, value)) == multiset(sorted) + multiset{value}
  {
    hide CompareTextOf;
    if sorted != [] {
      InsertKeepsRecords(sorted[..|sorted| - 1], value);
      assert sorted == sorted[..|sorted| - 1] + [sorted[|sorted| - 1]];
    }
  }

  lemma {:induction false} InsertKeepsSorted(sorted: seq<Record>, value: Record)
    requires SortedByUsr(sorted)
    ensures SortedByUsr(Insert(sorted, value))
  {
    hide CompareTextOf;
    if sorted != [] {
      var front, last := sorted[..|sorted| - 1], sorted[|sorted| - 1];
      CompareTextLaws(last.usr, value.usr, last.usr);
      if CompareTextOf(last.usr, value.usr) <= 0 {
        BelowLast(sorted, value.usr);
      } else {
        InsertKeepsSorted(front, value);
        InsertKeepsRecords(front, value);
        CompareTextLaws(value.usr, last.usr, value.usr);
        NotAboveLast(sorted, value, Insert(front, value));
      }
    }
  }

  lemma BelowLast(sorted: seq<Record>, usr: Text)
    requires SortedByUsr(sorted) && sorted != [] && CompareTextOf(sorted[|sorted| - 1].usr, usr) <= 0
    ensures forall i :: 0 <= i < |sorted| ==> CompareTextOf(sorted[i].usr, usr) <= 0
  {
    hide CompareTextOf;
    forall i | 0 <= i < |sorted|
      ensures CompareTextOf(sorted[i].usr, usr) <= 0
    {
      CompareTextLaws(sorted[i].usr, sorted[|sorted| - 1].usr, usr);
    }
  }

  lemma NotAboveLast(sorted: seq<Record>, value: Record, rest: seq<Record>)
    requires SortedByUsr(sorted) && sorted != [] && CompareTextOf(value.usr, sorted[|sorted| - 1].usr) <= 0
    requires multiset(rest) == multiset(sorted[..|sorted| - 1]) + multiset{value}
    ensures forall i :: 0 <= i < |rest| ==> CompareTextOf(rest[i].usr, sorted[|sorted| - 1].usr) <= 0
  {
    hide CompareTextOf;
    forall i | 0 <= i < |rest|
      ensures CompareTextOf(rest[i].usr, sorted[|sorted| - 1].usr) <= 0
    {
      assert rest[i] in multiset(rest);
      assert rest[i] in sorted[..|sorted| - 1] || rest[i] == value;
    }
  }

  /** The records of one identity, in order. */
  function OfUsr(records: seq<Record>, usr: Text): seq<Record> {
    if records == [] then []
    else
      var last := records[|records| - 1];
      OfUsr(records[..|records| - 1], usr) + if last.usr == usr then [last] else []
  }

  lemma {:induction false} InsertIsStable(sorted: seq<Record>, value: Record, usr: Text)
    requires SortedByUsr(sorted)
    ensures OfUsr(Insert(sorted, value), usr) == OfUsr(sorted, usr) + if value.usr == usr then [value] else []
  {
    if sorted == [] || CompareTextOf(sorted[|sorted| - 1].usr, value.usr) <= 0 {
      assert (sorted + [value])[..|sorted|] == sorted;
    } else {
      var front, last := sorted[..|sorted| - 1], sorted[|sorted| - 1];
      InsertIsStable(front, value, usr);
      var rest := Insert(front, value);
      assert (rest + [last])[..|rest|] == rest;
      CompareTextLaws(last.usr, value.usr, value.usr);
    }
  }

  /** The result is sorted, holds the same records, and keeps the order of records of one identity. */
  lemma {:induction false} SortIsStable(records: seq<Record>, usr: Text)
    ensures SortedByUsr(Sort(records))
    ensures multiset(Sort(records)) == multiset(records)
    ensures OfUsr(Sort(records), usr) == OfUsr(records, usr)
  {
    hide CompareTextOf;
    if records != [] {
      var front, last := records[..|records| - 1], records[|records| - 1];
      assert records == front + [last];
      SortIsStable(front, usr);
      InsertKeepsSorted(Sort(front), last);
      InsertKeepsRecords(Sort(front), last);
      InsertIsStable(Sort(front), last, usr);
    }
  }

  // Duplicates.

  ghost predicate NoEqualNeighbours(records: seq<Record>) {
    forall k :: 0 < k < |records| ==> records[k - 1].usr != records[k].usr
  }

  /** In a sorted list an identity that returns stands right behind itself. */
  lemma EqualAreNeighbours(sorted: seq<Record>, i: nat, j: nat)
    requires SortedByUsr(sorted)
    requires i < j < |sorted| && sorted[i].usr == sorted[j].usr
    ensures sorted[j - 1].usr == sorted[j].usr
  {
    hide CompareTextOf;
    CompareTextLaws(sorted[j - 1].usr, sorted[j].usr, sorted[j].usr);
    if i < j - 1 {
      assert CompareTextOf(sorted[i].usr, sorted[j - 1].usr) <= 0;
    }
  }

  lemma NeighboursDecide(sorted: seq<Record>)
    requires SortedByUsr(sorted)
    ensures UniqueUsrs(sorted) <==> NoEqualNeighbours(sorted)
  {
    if NoEqualNeighbours(sorted) {
      forall i, j | 0 <= i < j < |sorted|
        ensures sorted[i].usr != sorted[j].usr
      {
        if sorted[i].usr == sorted[j].usr {
          EqualAreNeighbours(sorted, i, j);
        }
      }
    }
  }

  ghost predicate AtMostOnce(records: seq<Record>, usr: Text) {
    forall i, j :: 0 <= i < j < |records| ==> !(records[i].usr == records[j].usr == usr)
  }

  lemma {:induction false} CountOfUsr(records: seq<Record>, usr: Text)
    ensures |OfUsr(records, usr)| <= 1 <==> AtMostOnce(records, usr)
    ensures OfUsr(records, usr) == [] <==> forall i :: 0 <= i < |records| ==> records[i].usr != usr
  {
    if records != [] {
      CountOfUsr(records[..|records| - 1], usr);
    }
  }

  lemma UniqueIsAtMostOnce(records: seq<Record>)
    ensures UniqueUsrs(records) <==> forall usr :: AtMostOnce(records, usr)
  {
    if forall usr :: AtMostOnce(records, usr) {
      forall i, j | 0 <= i < j < |records|
        ensures records[i].usr != records[j].usr
      {
        assert AtMostOnce(records, records[i].usr);
      }
    }
  }

  /** Sorting neither makes nor hides a duplicate. */
  lemma SortKeepsUnique(records: seq<Record>)
    ensures UniqueUsrs(Sort(records)) <==> UniqueUsrs(records)
  {
    hide *;
    forall usr
      ensures AtMostOnce(records, usr) <==> AtMostOnce(Sort(records), usr)
    {
      SortIsStable(records, usr);
      CountOfUsr(records, usr);
      CountOfUsr(Sort(records), usr);
    }
    UniqueIsAtMostOnce(records);
    UniqueIsAtMostOnce(Sort(records));
  }

  /** The snapshot's gate: the adjacent comparison refuses exactly the inputs with a repeated identity. */
  method SortAndCheck(records: array<Record>) returns (accepted: bool)
    modifies records
    ensures records[..] == Sort(old(records[..]))
    ensures accepted == UniqueUsrs(old(records[..]))
  {
    hide Sort, CompareTextOf, UniqueUsrs, SortedByUsr;
    ghost var before := records[..];
    SortRecords(records);
    SortIsStable(before, []);
    SortKeepsUnique(before);
    NeighboursDecide(records[..]);
    var index := 1;
    while index < records.Length
      invariant index >= 1
      invariant forall k :: 0 < k < index && k < records.Length ==> records[k - 1].usr != records[k].usr
    {
      if records[index - 1].usr == records[index].usr {
        assert !NoEqualNeighbours(records[..]) by {
          assert records[..][index - 1].usr == records[..][index].usr;
        }
        return false;
      }
      index := index + 1;
    }
    return true;
  }
}
