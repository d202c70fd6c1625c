/** The order of the facts, and the removal of duplicates after sorting. */
module FactOrder {
  import opened CStrings
  import opened Facts

  /** What `compare_size` and `compare_text` return. */
  type Sign = s: int | -1 <= s <= 1

  function CompareSize(left: nat, right: nat): Sign {
    if left < right then -1 else if left > right then 1 else 0
  }

  /** Byte-wise; where one text ends its terminator is smaller than any byte. */
  function CompareTextOf(left: Text, right: Text): Sign {
    if left != [] && right != [] && left[0] == right[0] then CompareTextOf(left[1..], right[1..])
    else CompareSize(if left == [] then 0 else left[0] as nat, if right == [] then 0 else right[0] as nat)
  }

  method CompareText(left: Text, right: Text) returns (result: Sign)
    ensures result == CompareTextOf(left, right)
  {
    var i := 0;
    while i < |left| && i < |right| && left[i] == right[i]
      invariant i <= |left| && i <= |right|
      invariant CompareTextOf(left, right) == CompareTextOf(left[i..], right[i..])
    {
      assert left[i..][1..] == left[i + 1..] && right[i..][1..] == right[i + 1..];
      i := i + 1;
    }
    var leftByte := if i < |left| then left[i] as nat else 0;
    var rightByte := if i < |right| then right[i] as nat else 0;
    if leftByte < rightByte {
      result := -1;
    } else if leftByte > rightByte {
      result := 1;
    } else {
      result := 0;
    }
  }

  // The comparator looks at eleven fields in turn.  `code` numbers the kinds.

  datatype Field = Number(n: nat) | String(text: Text)

  function CompareField(left: Field, right: Field): Sign {
    match (left, right)
    case (Number(m), Number(n)) => CompareSize(m, n)
    case (String(s), String(t)) => CompareTextOf(s, t)
    case (Number(_), String(_)) => -1
    case (String(_), Number(_)) => 1
  }

  /** The fields in the order of their weight. */
  function Key(fact: Fact, code: Kind -> nat): seq<Field> {
    [String(fact.path), Number(fact.line), Number(fact.column), Number(code(fact.kind)), String(fact.name),
     String(fact.caller), String(fact.usr), String(fact.callerUsr), Number(fact.start), Number(fact.end),
     Number(if fact.isDefinition then 1 else 0)]
  }

  function CompareKeys(left: seq<Field>, right: seq<Field>): Sign
    requires |left| == |right|
  {
    if left == [] then 0
    else
      var first := CompareField(left[0], right[0]);
      if first == 0 then CompareKeys(left[1..], right[1..]) else first
  }

  function CompareFacts(a: Fact, b: Fact, code: Kind -> nat): Sign {
    CompareKeys(Key(a, code), Key(b, code))
  }

  // A total preorder.

  lemma {:induction false} CompareTextLaws(a: Text, b: Text, c: Text)
    ensures CompareTextOf(a, b) == -CompareTextOf(b, a)
    ensures CompareTextOf(a, b) == 0 <==> a == b
    ensures CompareTextOf(a, b) <= 0 && CompareTextOf(b, c) <= 0 ==> CompareTextOf(a, c) <= 0
  {
    if a != [] && b != [] && c != [] && a[0] == b[0] == c[0] {
      CompareTextLaws(a[1..], b[1..], c[1..]);
    } else if a != [] && b != [] && a[0] == b[0] {
      CompareTextLaws(a[1..], b[1..], []);
    }
    if a == b {
      CompareTextSelf(a);
    }
  }

  lemma {:induction false} CompareTextSelf(a: Text)
    ensures CompareTextOf(a, a) == 0
  {
    if a != [] {
      CompareTextSelf(a[1..]);
    }
  }

  lemma CompareFieldLaws(a: Field, b: Field, c: Field)
    ensures CompareField(a, b) == -CompareField(b, a)
    ensures CompareField(a, b) == 0 <==> a == b
    ensures CompareField(a, b) <= 0 && CompareField(b, c) <= 0 ==> CompareField(a, c) <= 0
  {
    if a.String? && b.String? && c.String? {
      CompareTextLaws(a.text, b.text, c.text);
    } else if a.String? && b.String? {
      CompareTextLaws(a.text, b.text, []);
    }
  }

  /** Comparing field by field, the first difference deciding, is a total order on keys. */
  lemma {:induction false} CompareKeysLaws(a: seq<Field>, b: seq<Field>, c: seq<Field>)
    requires |a| == |b| == |c|
    ensures CompareKeys(a, b) == -CompareKeys(b, a)
    ensures CompareKeys(a, b) == 0 <==> a == b
    ensures CompareKeys(a, b) <= 0 && CompareKeys(b, c) <= 0 ==> CompareKeys(a, c) <= 0
  {
    hide CompareField;
    if a != [] {
      CompareFieldLaws(a[0], b[0], c[0]);
      CompareFieldLaws(b[0], c[0], a[0]);
      CompareFieldLaws(a[0], c[0], b[0]);
      CompareFieldLaws(c[0], a[0], b[0]);
      CompareKeysLaws(a[1..], b[1..], c[1..]);
      assert a == [a[0]] + a[1..] && b == [b[0]] + b[1..];
    }
  }

  /** `compare_facts` is a total preorder whose ties are the facts with equal keys. */
  lemma CompareFactsLaws(a: Fact, b: Fact, c: Fact, code: Kind -> nat)
    ensures CompareFacts(a, b, code) == -CompareFacts(b, a, code)
    ensures CompareFacts(a, b, code) == 0 <==> Key(a, code) == Key(b, code)
    ensures CompareFacts(a, b, code) <= 0 && CompareFacts(b, c, code) <= 0 ==> CompareFacts(a, c, code) <= 0
  {
    CompareKeysLaws(Key(a, code), Key(b, code), Key(c, code));
  }

  // The order in terms of the fields.

  /** The order of texts: at the first difference the smaller byte or the end of the text comes first. */
  lemma {:induction false} TextOrderIff(left: Text, right: Text)
    ensures CompareTextOf(left, right) < 0 <==> exists n: nat :: ComesFirstAt(left, right, n)
  {
    if left != [] && right != [] && left[0] == right[0] {
      TextOrderIff(left[1..], right[1..]);
      if n: nat :| ComesFirstAt(left[1..], right[1..], n) {
        FirstByteAgrees(left, right, n);
      }
      if n: nat :| ComesFirstAt(left, right, n) {
        assert n > 0;
        FirstByteAgrees(left, right, n - 1);
      }
    } else if left == right == [] {
      assert forall n: nat :: !ComesFirstAt(left, right, n);
    } else {
      if CompareTextOf(left, right) < 0 {
        assert ComesFirstAt(left, right, 0);
      }
      forall n: nat | ComesFirstAt(left, right, n)
        ensures n == 0
      {
        DifferAtOnce(left, right, n);
      }
    }
  }

  lemma DifferAtOnce(left: Text, right: Text, n: nat)
    requires left == [] || right == [] || left[0] != right[0]
    ensures n > 0 ==> !ComesFirstAt(left, right, n)
  {
    if 0 < n <= |left| && n <= |right| {
      assert left[..n][0] == left[0] && right[..n][0] == right[0];
    }
  }

  predicate ComesFirstAt(left: Text, right: Text, n: nat) {
    && n <= |left| && n < |right| && left[..n] == right[..n]
    && (n == |left| || left[n] < right[n])
  }

  lemma FirstByteAgrees(left: Text, right: Text, n: nat)
    requires left != [] && right != [] && left[0] == right[0]
    ensures ComesFirstAt(left[1..], right[1..], n) <==> ComesFirstAt(left, right, n + 1)
  {
    if n < |left| && n < |right| {
      assert left[..n + 1] == [left[0]] + left[1..][..n];
      assert right[..n + 1] == [right[0]] + right[1..][..n];
      assert left[1..][..n] == left[..n + 1][1..] && right[1..][..n] == right[..n + 1][1..];
    }
  }

  /** What `qsort` sees: the eleven fields in the order of their weight, the first difference deciding. */
  lemma FirstDifferenceDecides(a: Fact, b: Fact, code: Kind -> nat)
    ensures CompareFacts(a, b, code) ==
      if a.path != b.path then CompareTextOf(a.path, b.path)
      else if a.line != b.line then (if a.line < b.line then -1 else 1)
      else if a.column != b.column then (if a.column < b.column then -1 else 1)
      else if code(a.kind) != code(b.kind) then (if code(a.kind) < code(b.kind) then -1 else 1)
      else if a.name != b.name then CompareTextOf(a.name, b.name)
      else if a.caller != b.caller then CompareTextOf(a.caller, b.caller)
      else if a.usr != b.usr then CompareTextOf(a.usr, b.usr)
      else if a.callerUsr != b.callerUsr then CompareTextOf(a.callerUsr, b.callerUsr)
      else if a.start != b.start then (if a.start < b.start then -1 else 1)
      else if a.end != b.end then (if a.end < b.end then -1 else 1)
      else if a.isDefinition != b.isDefinition then (if b.isDefinition then -1 else 1)
      else 0
  {
    TextTies(a.path, b.path);
    TextTies(a.name, b.name);
    TextTies(a.caller, b.caller);
    TextTies(a.usr, b.usr);
    TextTies(a.callerUsr, b.callerUsr);
    ElevenFields(Key(a, code), Key(b, code));
    hide CompareTextOf, CompareKeys;
  }

  /** The first sign that is not zero. */
  function Then(first: Sign, rest: Sign): (sign: Sign)
    ensures rest == 0 ==> sign == first
  {
    if first == 0 then rest else first
  }

  lemma ElevenFields(left: seq<Field>, right: seq<Field>)
    requires |left| == |right| == 11
    ensures CompareKeys(left, right) ==
      Then(CompareField(left[0], right[0]),
        Then(CompareField(left[1], right[1]),
          Then(CompareField(left[2], right[2]),
            Then(CompareField(left[3], right[3]),
              Then(CompareField(left[4], right[4]),
                Then(CompareField(left[5], right[5]),
                  Then(CompareField(left[6], right[6]),
                    Then(CompareField(left[7], right[7]),
                      Then(CompareField(left[8], right[8]),
                        Then(CompareField(left[9], right[9]), CompareField(left[10], right[10])))))))))))
  {
    KeysFrom(left, right, 0);
    assert left[0..] == left && right[0..] == right;
    hide CompareField, CompareKeys, From, Then;
    FromUnfolds(left, right, 0);
    FromUnfolds(left, right, 1);
    FromUnfolds(left, right, 2);
    FromUnfolds(left, right, 3);
    FromUnfolds(left, right, 4);
    FromUnfolds(left, right, 5);
    FromUnfolds(left, right, 6);
    FromUnfolds(left, right, 7);
    FromUnfolds(left, right, 8);
    FromUnfolds(left, right, 9);
    FromUnfolds(left, right, 10);
    FromUnfolds(left, right, 11);
  }

  lemma TextTies(left: Text, right: Text)
    ensures CompareTextOf(left, right) == 0 <==> left == right
  {
    CompareTextLaws(left, right, left);
  }

  /** The comparison from field `i` on. */
  function From(left: seq<Field>, right: seq<Field>, i: nat): Sign
    requires i <= |left| == |right|
    decreases |left| - i
  {
    if i == |left| then 0 else Then(CompareField(left[i], right[i]), From(left, right, i + 1))
  }

  lemma {:induction false} KeysFrom(left: seq<Field>, right: seq<Field>, i: nat)
    requires i <= |left| == |right|
    ensures CompareKeys(left[i..], right[i..]) == From(left, right, i)
    decreases |left| - i
  {
    hide CompareField;
    if i < |left| {
      KeysFrom(left, right, i + 1);
      assert left[i..][1..] == left[i + 1..] && right[i..][1..] == right[i + 1..];
    }
  }

  lemma FromUnfolds(left: seq<Field>, right: seq<Field>, i: nat)
    requires i <= |left| == |right|
    ensures i == |left| ==> From(left, right, i) == 0
    ensures i < |left| ==> From(left, right, i) == Then(CompareField(left[i], right[i]), From(left, right, i + 1))
  {
  }

  /** Facts tie exactly when they agree in all eleven fields. */
  lemma TiesAgreeInFields(a: Fact, b: Fact, code: Kind -> nat)
    ensures CompareFacts(a, b, code) == 0 <==>
      && a.path == b.path && a.line == b.line && a.column == b.column && code(a.kind) == code(b.kind)
      && a.name == b.name && a.caller == b.caller && a.usr == b.usr && a.callerUsr == b.callerUsr
      && a.start == b.start && a.end == b.end && a.isDefinition == b.isDefinition
  {
    hide CompareFacts, CompareTextOf;
    FirstDifferenceDecides(a, b, code);
    TextTies(a.path, b.path);
    TextTies(a.name, b.name);
    TextTies(a.caller, b.caller);
    TextTies(a.usr, b.usr);
    TextTies(a.callerUsr, b.callerUsr);
  }

  // Sorting and compaction.

  ghost predicate IsSorted(facts: seq<Fact>, code: Kind -> nat) {
    forall i, j :: 0 <= i < j < |facts| ==> CompareFacts(facts[i], facts[j], code) <= 0
  }

  /** What `qsort` may leave: any sorted rearrangement, in whatever order it puts equal facts. */
  ghost predicate IsSortingOf(sorted: seq<Fact>, facts: seq<Fact>, code: Kind -> nat) {
    multiset(sorted) == multiset(facts) && IsSorted(sorted, code)
  }

  ghost predicate IsStrictlyIncreasing(facts: seq<Fact>, code: Kind -> nat) {
    forall i, j :: 0 <= i < j < |facts| ==> CompareFacts(facts[i], facts[j], code) < 0
  }

  /** Keep a fact unless it ties with the one kept last. */
  function Compact(facts: seq<Fact>, code: Kind -> nat): (kept: seq<Fact>)
    ensures |kept| <= |facts| && (facts != [] ==> kept != [])
  {
    if |facts| <= 1 then facts
    else
      var kept := Compact(facts[..|facts| - 1], code);
      var next := facts[|facts| - 1];
      if CompareFacts(kept[|kept| - 1], next, code) != 0 then kept + [next] else kept
  }

  lemma {:induction false} CompactEndsWithTie(facts: seq<Fact>, code: Kind -> nat)
    requires facts != []
    ensures CompareFacts(Compact(facts, code)[|Compact(facts, code)| - 1], facts[|facts| - 1], code) == 0
  {
    hide CompareFacts;
    var next := facts[|facts| - 1];
    CompareFactsLaws(next, next, next, code);
  }

  lemma {:induction false} CompactIsIncreasing(facts: seq<Fact>, code: Kind -> nat)
    requires IsSorted(facts, code)
    ensures IsStrictlyIncreasing(Compact(facts, code), code)
  {
    hide CompareFacts;
    if |facts| > 1 {
      var front, next := facts[..|facts| - 1], facts[|facts| - 1];
      var kept := Compact(front, code);
      CompactIsIncreasing(front, code);
      CompactEndsWithTie(front, code);
      var last := kept[|kept| - 1];
      CompareFactsLaws(last, front[|front| - 1], next, code);
      if CompareFacts(last, next, code) != 0 {
        forall i | 0 <= i < |kept|
          ensures CompareFacts(kept[i], next, code) < 0
        {
          KeptBefore(kept[i], last, next, code);
        }
      }
    }
  }

  ghost predicate HasTie(kept: seq<Fact>, f: Fact, code: Kind -> nat) {
    exists k :: k in kept && CompareFacts(k, f, code) == 0
  }

  lemma {:induction false} CompactRepresents(facts: seq<Fact>, code: Kind -> nat, f: Fact)
    ensures f in Compact(facts, code) ==> f in facts
    ensures f in facts ==> HasTie(Compact(facts, code), f, code)
  {
    hide CompareFacts;
    CompareFactsLaws(f, f, f, code);
    if |facts| > 1 {
      var front, next := facts[..|facts| - 1], facts[|facts| - 1];
      CompactRepresents(front, code, f);
      assert facts == front + [next];
      assert Compact(front, code) <= Compact(facts, code);
      if f == next {
        CompactEndsWithTie(facts, code);
      } else if HasTie(Compact(front, code), f, code) {
        var k :| k in Compact(front, code) && CompareFacts(k, f, code) == 0;
        assert k in Compact(facts, code);
      }
    }
  }

  /** What does not follow `last` lies strictly before everything that strictly follows it. */
  lemma KeptBefore(k: Fact, last: Fact, next: Fact, code: Kind -> nat)
    ensures CompareFacts(k, last, code) <= 0 && CompareFacts(last, next, code) < 0 ==> CompareFacts(k, next, code) < 0
  {
    hide CompareFacts;
    CompareFactsLaws(k, last, next, code);
    CompareFactsLaws(next, k, last, code);
    CompareFactsLaws(last, next, k, code);
  }

  /** `deduplicate_facts`; `sorted` is what `qsort` makes of the facts.  What remains is strictly increasing, hence free
      of ties, comes from the facts, and stands for each of them. */
  method DeduplicateFacts(facts: array<Fact>, factCount: nat, sorted: seq<Fact>, code: Kind -> nat) returns (count: nat)
    requires factCount <= facts.Length && IsSortingOf(sorted, facts[..factCount], code)
    modifies facts
    ensures count <= factCount && facts[factCount..] == old(facts[factCount..])
    ensures IsStrictlyIncreasing(facts[..count], code)
    ensures forall f :: f in facts[..count] ==> f in old(facts[..factCount])
    ensures forall f :: f in old(facts[..factCount]) ==> HasTie(facts[..count], f, code)
  {
    hide CompareFacts, Compact, IsSorted, IsStrictlyIncreasing, HasTie;
    ghost var before := facts[..factCount];
    SameMembers(sorted, before);
    count := factCount;
    if factCount >= 2 {
      count := SortAndCompact(facts, factCount, sorted, code);
    } else {
      CompactShort(sorted, before, code);
    }
    CompactIsIncreasing(sorted, code);
    forall f {:trigger f in before}
      ensures f in facts[..count] ==> f in before
      ensures f in before ==> HasTie(facts[..count], f, code)
    {
      CompactRepresents(sorted, code, f);
    }
  }

  method SortAndCompact(facts: array<Fact>, factCount: nat, sorted: seq<Fact>, code: Kind -> nat) returns (count: nat)
    requires 2 <= factCount <= facts.Length && |sorted| == factCount
    modifies facts
    ensures count <= factCount && facts[..count] == Compact(sorted, code)
    ensures facts[factCount..] == old(facts[factCount..])
  {
    hide CompareFacts, Compact;
    forall i | 0 <= i < factCount {
      facts[i] := sorted[i];
    }
    var writeIndex := 1;
    CompactFirst(sorted, code);
    for readIndex := 1 to factCount
      invariant 1 <= writeIndex <= readIndex
      invariant facts[..writeIndex] == Compact(sorted[..readIndex], code)
      invariant forall i :: readIndex <= i < factCount ==> facts[i] == sorted[i]
      invariant facts[factCount..] == old(facts[factCount..])
    {
      CompactStep(sorted, readIndex, code);
      if CompareFacts(facts[writeIndex - 1], facts[readIndex], code) != 0 {
        if writeIndex != readIndex {
          facts[writeIndex] := facts[readIndex];
        }
        writeIndex := writeIndex + 1;
      }
    }
    count := writeIndex;
    assert sorted[..factCount] == sorted;
  }

  lemma CompactFirst(sorted: seq<Fact>, code: Kind -> nat)
    requires sorted != []
    ensures Compact(sorted[..1], code) == [sorted[0]]
  {
  }

  lemma CompactStep(sorted: seq<Fact>, n: nat, code: Kind -> nat)
    requires 1 <= n < |sorted|
    ensures var kept := Compact(sorted[..n], code);
      Compact(sorted[..n + 1], code) ==
        if CompareFacts(kept[|kept| - 1], sorted[n], code) != 0 then kept + [sorted[n]] else kept
  {
    hide CompareFacts;
    assert sorted[..n + 1][..n] == sorted[..n];
  }

  lemma SameMembers(sorted: seq<Fact>, facts: seq<Fact>)
    requires multiset(sorted) == multiset(facts)
    ensures |sorted| == |facts| && forall f :: f in sorted <==> f in facts
  {
    assert |sorted| == |multiset(sorted)| == |multiset(facts)| == |facts|;
    assert forall f :: f in facts <==> f in multiset(facts);
    assert forall f :: f in sorted <==> f in multiset(sorted);
  }

  lemma CompactShort(sorted: seq<Fact>, facts: seq<Fact>, code: Kind -> nat)
    requires multiset(sorted) == multiset(facts) && |sorted| == |facts| <= 1
    ensures sorted == facts == Compact(sorted, code)
  {
    if |facts| == 1 {
      assert sorted[0] in multiset(facts);
    }
  }
}
