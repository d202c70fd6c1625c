/** When the repository test of the capability analysis behaves like an equivalence.  Every root is one name between
    two slashes. */
module Repositories {
  import opened CStrings
  import opened Instrumentation

  lemma SameRepositoryIsSymmetric(left: Text, right: Text)
    ensures SameRepository(left, right) == SameRepository(right, left)
  {
    hide RepositoryUnder;
  }

  predicate Under(path: Text, k: nat)
    requires k < |ROOTS|
  {
    Find(path, ROOTS[k]).Some?
  }

  // Paths that are easy to read.

  lemma Roots(k: nat)
    requires k < |ROOTS|
    ensures |ROOTS[k]| >= 10
    ensures forall i :: 0 <= i < |ROOTS[k]| ==> (ROOTS[k][i] == '/' <==> i == 0 || i == |ROOTS[k]| - 1)
    ensures ROOTS[k][1] == if k == 0 then 'l' else if k == 1 then 'p' else 't'
  {
  }

  lemma StartOfFind(text: Text, part: Text, at: nat)
    requires OccursAt(text, part, at) && forall k :: 0 <= k < at ==> !OccursAt(text, part, k)
    ensures Find(text, part) == Some(at)
  {
  }

  lemma Differs(text: Text, part: Text, at: nat, i: nat)
    requires i < |part| && (at + i < |text| ==> text[at + i] != part[i])
    ensures !OccursAt(text, part, at)
  {
    if at + |part| <= |text| {
      assert text[at..at + |part|][i] == text[at + i];
    }
  }

  /** A root and a name: the path lies under this root, in the repository of that name, and under no other. */
  lemma OneRoot(k: nat, name: Text)
    requires k < |ROOTS| && '/' !in name
    ensures Under(ROOTS[k] + name, k) && RepositoryUnder(ROOTS[k] + name, ROOTS[k]) == name
    ensures forall j: nat :: j < |ROOTS| && j != k ==> !Under(ROOTS[k] + name, j)
  {
    hide Find, UpToSlash;
    var root, path := ROOTS[k], ROOTS[k] + name;
    StartOfFind(path, root, 0);
    assert path[|root|..] == name + [];
    UpToSlashWhole(name, []);
    Roots(k);
    forall j: nat | j < |ROOTS| && j != k
      ensures !Under(path, j)
    {
      Roots(j);
      forall i: nat
        ensures !OccursAt(path, ROOTS[j], i)
      {
        NotAmong(path, ROOTS[j], i, |root| - 1);
      }
      assert !Find(path, ROOTS[j]).Some?;
    }
  }

  /** Slashes only at the start and at `last`: another root would need its first letter at the start. */
  lemma NotAmong(path: Text, part: Text, i: nat, last: nat)
    requires 1 < last < |path| && forall k :: 0 <= k < |path| ==> (path[k] == '/' ==> k == 0 || k == last)
    requires |part| >= 3 && part[0] == part[|part| - 1] == '/' && part[1] != path[1]
    ensures !OccursAt(path, part, i)
  {
    Differs(path, part, i, if i >= |path| || path[i] != '/' then 0 else if i == 0 then 1 else |part| - 1);
  }

  /** A repository below the first root that has another root inside. */
  function Nested(x: Byte, k: nat, name: Text): Text
    requires k < |ROOTS|
  {
    ROOTS[0] + [x] + ROOTS[k] + name
  }

  lemma NestedRoots(x: Byte, k: nat, name: Text)
    requires 0 < k < |ROOTS| && '/' !in name && x in "xy"
    ensures var path := Nested(x, k, name);
      && Under(path, 0) && RepositoryUnder(path, ROOTS[0]) == [x]
      && Under(path, k) && RepositoryUnder(path, ROOTS[k]) == name
  {
    hide Find, UpToSlash;
    var path := Nested(x, k, name);
    Roots(0);
    Roots(k);
    StartOfFind(path, ROOTS[0], 0);
    assert path[|ROOTS[0]|..] == [x] + (ROOTS[k] + name);
    UpToSlashWhole([x], ROOTS[k] + name);
    forall i: nat | i < 12
      ensures !OccursAt(path, ROOTS[k], i)
    {
      assert i < 11 ==> path[i] == ROOTS[0][i];
      Differs(path, ROOTS[k], i, if i == 0 || i == 10 then 1 else 0);
    }
    StartOfFind(path, ROOTS[k], 12);
    assert path[12 + |ROOTS[k]|..] == name + [];
    UpToSlashWhole(name, []);
  }

  // Transitivity.

  /** The test carries over the path `middle`, whatever the paths on both sides. */
  ghost predicate TransitiveThrough(middle: Text) {
    forall left, right :: SameRepository(left, middle) && SameRepository(middle, right) ==> SameRepository(left, right)
  }

  lemma DecidedBy(left: Text, right: Text, k: nat)
    requires k < |ROOTS| && Under(left, k) && Under(right, k)
    requires forall j: nat :: j < k ==> !(Under(left, j) && Under(right, j))
    ensures SameRepository(left, right) <==> RepositoryUnder(left, ROOTS[k]) == RepositoryUnder(right, ROOTS[k])
  {
    hide Find, RepositoryUnder;
    forall j: nat | j < k
      ensures !BothUnder(left, right, ROOTS[j])
    {
      assert !(Under(left, j) && Under(right, j));
    }
    FirstRootDecides(left, right, ROOTS, k);
  }

  lemma NoCommonRoot(left: Text, right: Text)
    requires forall j: nat :: j < |ROOTS| ==> !(Under(left, j) && Under(right, j))
    ensures !SameRepository(left, right)
  {
    hide Find, RepositoryUnder;
    forall j: nat | j < |ROOTS|
      ensures !BothUnder(left, right, ROOTS[j])
    {
      assert !(Under(left, j) && Under(right, j));
    }
  }

  /** The middle path lies in a library of its own below two other libraries: they are told apart. */
  lemma NotThroughInnerRoot(middle: Text, k: nat)
    requires 0 < k < |ROOTS| && Under(middle, k) && forall j: nat :: j < k ==> !Under(middle, j)
    ensures !TransitiveThrough(middle)
  {
    hide Find, RepositoryUnder, SameRepository, ROOTS;
    var name := RepositoryUnder(middle, ROOTS[k]);
    NameHasNoSlash(middle, k);
    var left, right := Nested('x', k, name), Nested('y', k, name);
    NestedRoots('x', k, name);
    NestedRoots('y', k, name);
    DecidedBy(left, middle, k);
    DecidedBy(middle, right, k);
    DecidedBy(left, right, 0);
    assert SameRepository(left, middle) && SameRepository(middle, right) && !SameRepository(left, right);
  }

  /** The middle path lies below two roots: its neighbours may each share another one with it. */
  lemma NotThroughTwoRoots(middle: Text, k: nat)
    requires 0 < k < |ROOTS| && Under(middle, 0) && Under(middle, k)
    ensures !TransitiveThrough(middle)
  {
    hide Find, RepositoryUnder, SameRepository, ROOTS;
    NameHasNoSlash(middle, 0);
    NameHasNoSlash(middle, k);
    var left := ROOTS[k] + RepositoryUnder(middle, ROOTS[k]);
    var right := ROOTS[0] + RepositoryUnder(middle, ROOTS[0]);
    OneRoot(k, RepositoryUnder(middle, ROOTS[k]));
    OneRoot(0, RepositoryUnder(middle, ROOTS[0]));
    DecidedBy(left, middle, k);
    DecidedBy(middle, right, 0);
    NoCommonRoot(left, right);
    assert SameRepository(left, middle) && SameRepository(middle, right) && !SameRepository(left, right);
  }

  lemma NameHasNoSlash(path: Text, k: nat)
    requires k < |ROOTS| && Under(path, k)
    ensures '/' !in RepositoryUnder(path, ROOTS[k])
  {
  }

  lemma ThroughFirstRoot(left: Text, middle: Text, right: Text)
    requires !Under(middle, 1) && !Under(middle, 2)
    requires SameRepository(left, middle) && SameRepository(middle, right)
    ensures SameRepository(left, right)
  {
    hide Find, RepositoryUnder;
    assert Under(left, 0) && Under(middle, 0) by {
      var k :| 0 <= k < |ROOTS| && BothUnder(left, middle, ROOTS[k]);
      assert Under(middle, k);
    }
    assert Under(right, 0) by {
      var k :| 0 <= k < |ROOTS| && BothUnder(middle, right, ROOTS[k]);
      assert Under(middle, k);
    }
    hide SameRepository;
    DecidedBy(left, middle, 0);
    DecidedBy(middle, right, 0);
    DecidedBy(left, right, 0);
  }

  /** The test is not an equivalence: it carries over a path exactly when that path lies below no root but
      `/libraries/`, the root that is tried first.  This is why the closure runs over calls and not over
      repositories. */
  lemma TransitiveIffOnlyFirstRoot(middle: Text)
    ensures TransitiveThrough(middle) <==> !Under(middle, 1) && !Under(middle, 2)
  {
    hide Under, SameRepository;
    if !Under(middle, 1) && !Under(middle, 2) {
      forall left, right | SameRepository(left, middle) && SameRepository(middle, right)
        ensures SameRepository(left, right)
      {
        ThroughFirstRoot(left, middle, right);
      }
    } else {
      var k := if Under(middle, 1) then 1 else 2;
      if Under(middle, 0) {
        NotThroughTwoRoots(middle, k);
      } else {
        NotThroughInnerRoot(middle, k);
      }
    }
  }

  /** For instance through a library that holds a program. */
  lemma NotTransitiveThroughNestedProgram()
    ensures !TransitiveThrough(Nested('x', 1, "y"))
  {
    hide SameRepository, Nested;
    NestedRoots('x', 1, "y");
    NotThroughTwoRoots(Nested('x', 1, "y"), 1);
  }
}
