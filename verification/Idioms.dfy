/** The naming idiom of a module's public functions: one shared prefix that ends in an underscore. */
module Idioms {
  import opened CStrings
  import opened ModuleMap

  const OWNER_PREFIX: Text := "p101_"

  /** A definition with external linkage other than `main`. */
  predicate IsPublic(f: FunctionRecord, moduleName: Text) {
    !f.isStatic && !f.isHeaderDeclaration && f.moduleName == moduleName && f.usr != "c:@F@main"
  }

  function PublicNames(functions: seq<FunctionRecord>, moduleName: Text): seq<Text> {
    if functions == [] then []
    else
      var last := functions[|functions| - 1];
      PublicNames(functions[..|functions| - 1], moduleName) + if IsPublic(last, moduleName) then [last.name] else []
  }

  /** A prefix of every public name that ends in an underscore. */
  predicate IsSharedPrefix(prefix: Text, names: seq<Text>) {
    prefix != [] && prefix[|prefix| - 1] == '_' && forall name :: name in names ==> prefix <= name
  }

  ghost predicate HasSharedPrefix(names: seq<Text>) { exists prefix :: IsSharedPrefix(prefix, names) }

  /** The owner's prefix is the longest that the names share. */
  ghost predicate SharesOnlyOwner(names: seq<Text>) {
    IsSharedPrefix(OWNER_PREFIX, names) && forall prefix :: IsSharedPrefix(prefix, names) ==> |prefix| <= |OWNER_PREFIX|
  }

  /** What the rule asks of a module with at least two public functions. */
  ghost predicate SharesPrefix(names: seq<Text>, requireOwnerPrefix: bool) {
    |names| >= 2 ==> HasSharedPrefix(names) && !(requireOwnerPrefix && SharesOnlyOwner(names))
  }

  // The longest common prefix, underscore or not.

  predicate AgreeUpTo(names: seq<Text>, first: Text, n: nat) {
    n <= |first| && forall k :: 0 <= k < |names| ==> first[..n] <= names[k]
  }

  /** The names agree with the first one up to `n` and no further. */
  ghost predicate IsLongest(names: seq<Text>, first: Text, n: nat) {
    AgreeUpTo(names, first, n) && forall m: nat :: AgreeUpTo(names, first, m) ==> m <= n
  }

  /** Comparing one more name against the agreed part. */
  method Shorten(first: Text, prefixLength: nat, name: Text, ghost names: seq<Text>) returns (shared: nat)
    requires IsLongest(names, first, prefixLength)
    ensures IsLongest(names + [name], first, shared)
  {
    shared := 0;
    while shared < prefixLength && shared < |name| && name[shared] == first[shared]
      invariant shared <= prefixLength && shared <= |name| && first[..shared] == name[..shared]
    {
      shared := shared + 1;
    }
    forall k | 0 <= k < |names|
      ensures first[..shared] <= names[k]
    {
      assert first[..shared] == first[..prefixLength][..shared];
    }
    forall m: nat | AgreeUpTo(names + [name], first, m)
      ensures m <= shared
    {
      assert first[..m] <= (names + [name])[|names|];
      forall k | 0 <= k < |names|
        ensures first[..m] <= names[k]
      {
        assert (names + [name])[k] == names[k];
      }
      assert AgreeUpTo(names, first, m) && first[..m] <= name;
      assert forall k :: 0 <= k < m ==> name[k] == first[..m][k];
    }
  }

  /** Cutting the agreed part back to its last underscore finds the longest shared prefix. */
  method CutBack(first: Text, prefixLength: nat, ghost names: seq<Text>) returns (length: nat)
    requires IsLongest(names, first, prefixLength) && names != [] && names[0] == first
    ensures length == 0 ==> !HasSharedPrefix(names)
    ensures 0 < length <= |first| || length == 0
    ensures length > 0 ==> IsSharedPrefix(first[..length], names)
    ensures length > 0 ==> forall prefix :: IsSharedPrefix(prefix, names) ==> |prefix| <= length
  {
    length := prefixLength;
    while length > 0 && first[length - 1] != '_'
      invariant length <= prefixLength
      invariant forall k :: length <= k < prefixLength ==> first[k] != '_'
    {
      length := length - 1;
    }
    forall prefix | IsSharedPrefix(prefix, names)
      ensures |prefix| <= length
    {
      assert names[0] in names;
      assert prefix <= first;
      forall k | 0 <= k < |names|
        ensures first[..|prefix|] <= names[k]
      {
        assert names[k] in names;
      }
      assert AgreeUpTo(names, first, |prefix|);
      assert first[|prefix| - 1] == '_';
    }
    forall name | name in names
      ensures first[..length] <= name
    {
      assert first[..prefixLength] <= name;
      assert first[..length] == first[..prefixLength][..length];
    }
  }

  method ModuleSharesPrefix(functions: seq<FunctionRecord>, moduleName: Text, requireOwnerPrefix: bool)
    returns (shares: bool)
    ensures shares == SharesPrefix(PublicNames(functions, moduleName), requireOwnerPrefix)
  {
    hide IsPublic, IsLongest, IsSharedPrefix, PublicNames;
    NoPublicNames(moduleName);
    var first: Option<Text> := None;
    var prefixLength: nat, publicCount: nat := 0, 0;
    for i := 0 to |functions|
      invariant publicCount == |PublicNames(functions[..i], moduleName)|
      invariant first == if publicCount == 0 then None else Some(PublicNames(functions[..i], moduleName)[0])
      invariant first.Some? ==> IsLongest(PublicNames(functions[..i], moduleName), first.value, prefixLength)
    {
      PublicNamesAppend(functions[..i], [functions[i]], moduleName);
      OnePublicName(functions[i], moduleName);
      assert functions[..i + 1] == functions[..i] + [functions[i]];
      ghost var names := PublicNames(functions[..i], moduleName);
      assert names + [] == names;
      var f := functions[i];
      var public := IsPublic(f, moduleName);
      if public {
        if first == None {
          first, prefixLength := Some(f.name), |f.name|;
          OneNameIsLongest(f.name);
          assert PublicNames(functions[..i + 1], moduleName) == [f.name];
        } else {
          prefixLength := Shorten(first.value, prefixLength, f.name, names);
        }
        publicCount := publicCount + 1;
      }
    }
    assert functions[..|functions|] == functions;
    shares := true;
    if publicCount >= 2 {
      ghost var names := PublicNames(functions, moduleName);
      prefixLength := CutBack(first.value, prefixLength, names);
      if prefixLength == 0 {
        shares := false;
      } else if requireOwnerPrefix {
        OnlyOwnerIff(names, first.value[..prefixLength]);
        if prefixLength == |OWNER_PREFIX| && first.value[..prefixLength] == OWNER_PREFIX {
          shares := false;
        }
      }
    }
  }

  lemma NoPublicNames(moduleName: Text)
    ensures PublicNames([], moduleName) == []
  {
  }

  lemma OnePublicName(f: FunctionRecord, moduleName: Text)
    ensures PublicNames([f], moduleName) == if IsPublic(f, moduleName) then [f.name] else []
  {
  }

  lemma OneNameIsLongest(name: Text)
    ensures IsLongest([name], name, |name|)
  {
  }

  lemma OnlyOwnerIff(names: seq<Text>, longest: Text)
    requires names != [] && IsSharedPrefix(longest, names)
    requires forall prefix :: IsSharedPrefix(prefix, names) ==> |prefix| <= |longest|
    ensures SharesOnlyOwner(names) <==> longest == OWNER_PREFIX
  {
    if SharesOnlyOwner(names) {
      assert names[0] in names;
      assert longest <= names[0] && OWNER_PREFIX <= names[0];
    }
  }

  // The same in the fields of the records.

  /** A definition of the module with external linkage, but `main`. */
  predicate IsOffered(f: FunctionRecord, moduleName: Text) {
    f.moduleName == moduleName && !f.isHeaderDeclaration && f.usr != "c:@F@main" && !f.isStatic
  }

  lemma {:induction false} PublicNameIff(functions: seq<FunctionRecord>, moduleName: Text, name: Text)
    ensures name in PublicNames(functions, moduleName) <==>
      exists f :: f in functions && IsOffered(f, moduleName) && f.name == name
  {
    if functions != [] {
      var front, last := functions[..|functions| - 1], functions[|functions| - 1];
      assert functions == front + [last];
      PublicNameIff(front, moduleName, name);
    }
  }

  /** The rule speaks from the second of them on, also when they share one name. */
  lemma {:induction false} PublicNamesCount(functions: seq<FunctionRecord>, moduleName: Text, offered: set<int>)
    requires forall i {:trigger i in offered} :: i in offered <==>
      0 <= i < |functions| && IsOffered(functions[i], moduleName)
    ensures |PublicNames(functions, moduleName)| == |offered|
  {
    if functions == [] {
      assert offered == {};
    } else {
      var n := |functions| - 1;
      var front, before := functions[..n], offered - {n};
      assert forall i :: 0 <= i < n ==> front[i] == functions[i];
      PublicNamesCount(front, moduleName, before);
      assert offered == if n in offered then before + {n} else before;
    }
  }

  // The order of the functions.

  lemma {:induction false} PublicNamesPermute(
    functions: seq<FunctionRecord>, other: seq<FunctionRecord>, moduleName: Text)
    requires multiset(functions) == multiset(other)
    ensures multiset(PublicNames(functions, moduleName)) == multiset(PublicNames(other, moduleName))
    decreases |functions|
  {
    if functions == [] {
      assert other == [] by {
        assert |multiset(other)| == 0;
      }
    } else {
      var front, last := functions[..|functions| - 1], functions[|functions| - 1];
      var j := RemoveOne(functions, other);
      var left, right := other[..j], other[j + 1..];
      PublicNamesPermute(front, left + right, moduleName);
      PublicNamesAppend(left, [last] + right, moduleName);
      PublicNamesAppend([last], right, moduleName);
      PublicNamesAppend(left, right, moduleName);
      PublicNamesAppend(front, [last], moduleName);
    }
  }

  lemma RemoveOne(functions: seq<FunctionRecord>, other: seq<FunctionRecord>) returns (j: nat)
    requires multiset(functions) == multiset(other) && functions != []
    ensures j < |other| && other == other[..j] + ([functions[|functions| - 1]] + other[j + 1..])
    ensures functions == functions[..|functions| - 1] + [functions[|functions| - 1]]
    ensures multiset(functions[..|functions| - 1]) == multiset(other[..j] + other[j + 1..])
  {
    var front, last := functions[..|functions| - 1], functions[|functions| - 1];
    assert functions == front + [last];
    assert multiset(functions) == multiset(front) + multiset{last};
    assert last in multiset(other);
    j :| 0 <= j < |other| && other[j] == last;
    assert other == other[..j] + ([last] + other[j + 1..]);
    assert multiset(other) == multiset(other[..j] + other[j + 1..]) + multiset{last};
    assert multiset(front) == multiset(functions) - multiset{last};
  }

  lemma {:induction false} PublicNamesAppend(left: seq<FunctionRecord>, right: seq<FunctionRecord>, moduleName: Text)
    ensures PublicNames(left + right, moduleName) == PublicNames(left, moduleName) + PublicNames(right, moduleName)
    decreases |right|
  {
    if right == [] {
      assert left + right == left;
    } else {
      assert (left + right)[..|left + right| - 1] == left + right[..|right| - 1];
      PublicNamesAppend(left, right[..|right| - 1], moduleName);
    }
  }

  /** The answer does not depend on the order in which the functions were recorded. */
  lemma OrderIsIrrelevant(
    functions: seq<FunctionRecord>, other: seq<FunctionRecord>, moduleName: Text, requireOwnerPrefix: bool)
    requires multiset(functions) == multiset(other)
    ensures SharesPrefix(PublicNames(functions, moduleName), requireOwnerPrefix) ==
      SharesPrefix(PublicNames(other, moduleName), requireOwnerPrefix)
  {
    var names, names' := PublicNames(functions, moduleName), PublicNames(other, moduleName);
    PublicNamesPermute(functions, other, moduleName);
    hide PublicNames, IsSharedPrefix;
    assert |names| == |multiset(names)| == |multiset(names')| == |names'|;
    forall prefix
      ensures IsSharedPrefix(prefix, names) <==> IsSharedPrefix(prefix, names')
    {
      SharedPrefixPermutes(prefix, names, names');
    }
  }

  lemma SharedPrefixPermutes(prefix: Text, names: seq<Text>, names': seq<Text>)
    requires multiset(names) == multiset(names')
    ensures IsSharedPrefix(prefix, names) <==> IsSharedPrefix(prefix, names')
  {
    assert forall name :: name in names <==> name in multiset(names);
    assert forall name :: name in names' <==> name in multiset(names');
  }

  // Swapping a suffix.

  /** The peer of a name: its stem with another suffix, when the stem is not empty and the peer fits. */
  function SwapSuffix(name: Text, suffix: Text, replacement: Text, size: nat): Option<Text> {
    if |name| > |suffix| && name[|name| - |suffix|..] == suffix && |name| - |suffix| + |replacement| < size
    then Some(name[..|name| - |suffix|] + replacement)
    else None
  }

  /** The two copies into the peer's buffer, which is left alone when there is no peer. */
  method WritePeer(name: Text, suffix: Text, replacement: Text, peer: array<char>) returns (swapped: bool)
    modifies peer
    ensures var swap := SwapSuffix(name, suffix, replacement, peer.Length);
      if swap.Some? then swapped && Holds(peer[..], swap.value) else !swapped && peer[..] == old(peer[..])
  {
    swapped := false;
    if |name| > |suffix| && name[|name| - |suffix|..] == suffix {
      var stem := |name| - |suffix|;
      if stem + |replacement| < peer.Length {
        CopyInto(peer, 0, name[..stem]);
        CopyInto(peer, stem, replacement);
        swapped := true;
        assert peer[..stem + |replacement|] == name[..stem] + replacement;
      }
    }
  }

  /** `strncpy` or `strncat` of a whole text, and its terminator. */
  method CopyInto(buffer: array<char>, used: nat, text: Text)
    requires used + |text| < buffer.Length
    modifies buffer
    ensures buffer[..used + |text|] == old(buffer[..used]) + text && buffer[used + |text|] == '\0'
  {
    for i := 0 to |text|
      invariant buffer[..used + i] == old(buffer[..used]) + text[..i]
    {
      buffer[used + i] := text[i];
    }
    buffer[used + |text|] := '\0';
    assert text[..|text|] == text;
  }

  /** The peer's peer is the name. */
  lemma SwapSuffixBack(name: Text, suffix: Text, replacement: Text, size: nat)
    requires |name| < size
    ensures var peer := SwapSuffix(name, suffix, replacement, size);
      peer.Some? ==> SwapSuffix(peer.value, replacement, suffix, size) == Some(name)
  {
    var peer := SwapSuffix(name, suffix, replacement, size);
    if peer.Some? {
      var stem := name[..|name| - |suffix|];
      assert peer.value[..|peer.value| - |replacement|] == stem;
      assert stem + suffix == name;
    }
  }
}
