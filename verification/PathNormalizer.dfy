/** Lexical normalization of a relative path, in place in a fixed buffer, refined to a stack of components. */
module PathNormalizer {
  import opened CStrings

  const DOT: Text := "."
  const DOT_DOT: Text := ".."

  /** The components of a path: its maximal runs without `/`. */
  function Components(path: Text): (components: seq<Text>)
    ensures forall i :: 0 <= i < |components| ==> IsComponent(components[i])
    decreases |path|
  {
    if path == [] then []
    else if path[0] == '/' then Components(path[1..])
    else [UpToSlash(path)] + Components(path[|UpToSlash(path)|..])
  }

  predicate IsComponent(c: Text) { c != [] && '/' !in c }

  /** One component on top of the stack: `.` does nothing and `..` undoes a name. */
  function Push(stack: seq<Text>, c: Text): seq<Text> {
    if c == DOT then stack
    else if c == DOT_DOT && stack != [] && stack[|stack| - 1] != DOT_DOT then stack[..|stack| - 1]
    else stack + [c]
  }

  function PushAll(stack: seq<Text>, components: seq<Text>): seq<Text>
    decreases |components|
  {
    if components == [] then stack else PushAll(Push(stack, components[0]), components[1..])
  }

  function Join(stack: seq<Text>): Text {
    if stack == [] then []
    else if |stack| == 1 then stack[0]
    else Join(stack[..|stack| - 1]) + SLASH + stack[|stack| - 1]
  }

  function Normalize(path: Text): Text { Join(PushAll([], Components(path))) }

  // The form of a normalized path.

  predicate AreComponents(stack: seq<Text>) { forall i :: 0 <= i < |stack| ==> IsComponent(stack[i]) }

  /** No component is empty or `.`, and `..` stands only before all names. */
  predicate IsNormal(stack: seq<Text>) {
    && AreComponents(stack)
    && (forall i :: 0 <= i < |stack| ==> stack[i] != DOT)
    && (forall i, j :: 0 <= i < j < |stack| && stack[j] == DOT_DOT ==> stack[i] == DOT_DOT)
  }

  lemma {:induction false} PushAllIsNormal(stack: seq<Text>, components: seq<Text>)
    requires IsNormal(stack) && AreComponents(components)
    ensures IsNormal(PushAll(stack, components))
    decreases |components|
  {
    if components != [] {
      PushAllIsNormal(Push(stack, components[0]), components[1..]);
    }
  }

  /** A path reads back as the components it was joined from. */
  lemma {:induction false} ComponentsOfJoin(stack: seq<Text>)
    requires AreComponents(stack)
    ensures Components(Join(stack)) == stack
  {
    if |stack| == 1 {
      ComponentsOfOne(stack[0]);
    } else if |stack| > 1 {
      var front, last := stack[..|stack| - 1], stack[|stack| - 1];
      ComponentsOfJoin(front);
      ComponentsOfOne(last);
      ComponentsAppend(Join(front), last);
      assert Join(stack) == Join(front) + SLASH + last;
    }
  }

  lemma ComponentsOfOne(c: Text)
    requires IsComponent(c)
    ensures Components(c) == [c]
  {
    UpToSlashWhole(c, []);
    assert c + [] == c;
  }

  lemma {:induction false} ComponentsAppend(left: Text, right: Text)
    ensures Components(left + SLASH + right) == Components(left) + Components(right)
    decreases |left|
  {
    hide UpToSlash, IsComponent;
    if left == [] {
      assert (left + SLASH + right)[1..] == right;
    } else if left[0] == '/' {
      assert (left + SLASH + right)[1..] == left[1..] + SLASH + right;
      ComponentsAppend(left[1..], right);
    } else {
      var c := UpToSlash(left);
      UpToSlashWhole(c, left[|c|..] + SLASH + right);
      assert left + SLASH + right == c + (left[|c|..] + SLASH + right);
      assert (left + SLASH + right)[|c|..] == left[|c|..] + SLASH + right;
      ComponentsAppend(left[|c|..], right);
    }
  }

  /** Pushing the components of a normal path one by one rebuilds it. */
  lemma {:induction false} PushAllNormal(front: seq<Text>, rest: seq<Text>)
    requires IsNormal(front + rest)
    ensures PushAll(front, rest) == front + rest
    decreases |rest|
  {
    if rest == [] {
      assert front + rest == front;
    } else {
      assert (front + rest)[|front|] == rest[0];
      assert front != [] ==> (front + rest)[|front| - 1] == front[|front| - 1];
      assert Push(front, rest[0]) == front + [rest[0]];
      assert front + [rest[0]] + rest[1..] == front + rest;
      PushAllNormal(front + [rest[0]], rest[1..]);
    }
  }

  /** A normalized path has normal components, and normalizing it again changes nothing. */
  lemma NormalizeIsIdempotent(path: Text)
    ensures IsNormal(Components(Normalize(path)))
    ensures Normalize(Normalize(path)) == Normalize(path)
  {
    var stack := PushAll([], Components(path));
    PushAllIsNormal([], Components(path));
    ComponentsOfJoin(stack);
    assert [] + stack == stack;
    PushAllNormal([], stack);
  }

  // The meaning of a path: where it leads.

  /** One step from a directory, itself the list of its names below the root, which is its own parent. */
  function Step(directory: seq<Text>, c: Text): seq<Text> {
    if c == DOT then directory
    else if c == DOT_DOT then if directory == [] then [] else directory[..|directory| - 1]
    else directory + [c]
  }

  function Walk(directory: seq<Text>, components: seq<Text>): seq<Text>
    decreases |components|
  {
    if components == [] then directory else Walk(Step(directory, components[0]), components[1..])
  }

  /** Where a relative path leads.  A leading `/` counts for nothing, as in the code, which turns `/a` into `a`: its
      caller joins the target of an include to the folder of a module. */
  function Resolve(directory: seq<Text>, path: Text): seq<Text> { Walk(directory, Components(path)) }

  lemma {:induction false} WalkAppend(directory: seq<Text>, left: seq<Text>, right: seq<Text>)
    ensures Walk(directory, left + right) == Walk(Walk(directory, left), right)
    decreases |left|
  {
    if left == [] {
      assert left + right == right;
    } else {
      assert (left + right)[1..] == left[1..] + right;
      WalkAppend(Step(directory, left[0]), left[1..], right);
    }
  }

  /** Undoing a name at once leads where walking it down and up again leads. */
  lemma PushLeadsOn(directory: seq<Text>, stack: seq<Text>, c: Text)
    requires IsNormal(stack)
    ensures Walk(directory, Push(stack, c)) == Step(Walk(directory, stack), c)
  {
    if c == DOT {
    } else if c == DOT_DOT && stack != [] && stack[|stack| - 1] != DOT_DOT {
      var front, last := stack[..|stack| - 1], stack[|stack| - 1];
      assert stack == front + [last];
      WalkAppend(directory, front, [last]);
      assert Walk(directory, stack) == Walk(directory, front) + [last];
    } else {
      WalkAppend(directory, stack, [c]);
      assert [c][1..] == [];
    }
  }

  lemma {:induction false} PushAllLeadsOn(directory: seq<Text>, stack: seq<Text>, components: seq<Text>)
    requires IsNormal(stack) && AreComponents(components)
    ensures Walk(directory, PushAll(stack, components)) == Walk(Walk(directory, stack), components)
    decreases |components|
  {
    if components != [] {
      PushLeadsOn(directory, stack, components[0]);
      PushAllIsNormal(stack, [components[0]]);
      PushAllLeadsOn(directory, Push(stack, components[0]), components[1..]);
    }
  }

  /** From every directory the normalized path leads to the same place as the path. */
  lemma NormalizeKeepsMeaning(directory: seq<Text>, path: Text)
    ensures Resolve(directory, Normalize(path)) == Resolve(directory, path)
  {
    PushAllIsNormal([], Components(path));
    ComponentsOfJoin(PushAll([], Components(path)));
    PushAllLeadsOn(directory, [], Components(path));
  }

  // Normalization decides whether two paths mean the same.

  /** How many `..` a path starts with. */
  function Ups(stack: seq<Text>): (count: nat)
    ensures count <= |stack|
  {
    if stack != [] && stack[0] == DOT_DOT then 1 + Ups(stack[1..]) else 0
  }

  lemma NormalRest(stack: seq<Text>)
    requires IsNormal(stack) && stack != []
    ensures IsNormal(stack[1..]) && stack[0] != DOT
    ensures stack[0] != DOT_DOT ==> Ups(stack[1..]) == 0
  {
    assert |stack| > 1 ==> stack[1..][0] == stack[1];
  }

  lemma {:induction false} WalkNormal(directory: seq<Text>, stack: seq<Text>)
    requires IsNormal(stack) && Ups(stack) <= |directory|
    ensures Walk(directory, stack) == directory[..|directory| - Ups(stack)] + stack[Ups(stack)..]
    decreases |stack|
  {
    if stack == [] {
    } else {
      NormalRest(stack);
      hide IsNormal;
      WalkNormal(Step(directory, stack[0]), stack[1..]);
    }
  }

  function Longest(stack: seq<Text>): (length: nat)
    ensures forall c :: c in stack ==> |c| <= length
  {
    if stack == [] then 0
    else
      var rest := Longest(stack[1..]);
      if |stack[0]| > rest then |stack[0]| else rest
  }

  function Leading(names: seq<Text>, name: Text): nat {
    if names == [] || names[0] != name then 0 else 1 + Leading(names[1..], name)
  }

  lemma {:induction false} LeadingAre(names: seq<Text>, name: Text, count: nat)
    requires count <= |names| && forall i :: 0 <= i < count ==> names[i] == name
    requires count < |names| ==> names[count] != name
    ensures Leading(names, name) == count
  {
    if count > 0 {
      LeadingAre(names[1..], name, count - 1);
    }
  }

  /** From a directory deep enough, below names that neither path uses, different normal paths part. */
  lemma NormalPathsPart(left: seq<Text>, right: seq<Text>, directory: seq<Text>, name: Text)
    requires IsNormal(left) && IsNormal(right)
    requires name !in left && name !in right
    requires |directory| >= |left| + |right| && forall i :: 0 <= i < |directory| ==> directory[i] == name
    requires Walk(directory, left) == Walk(directory, right)
    ensures left == right
  {
    hide *;
    WalkLeads(directory, left, name);
    WalkLeads(directory, right, name);
    UpsAreDots(left);
    UpsAreDots(right);
    SameStack(left, right, Ups(left));
  }

  lemma SameStack(left: seq<Text>, right: seq<Text>, k: nat)
    requires k <= |left| && k <= |right| && left[k..] == right[k..]
    requires forall i :: 0 <= i < k ==> left[i] == right[i]
    ensures left == right
  {
    assert left == left[..k] + left[k..] && right == right[..k] + right[k..];
  }

  /** Where a normal path leads from such a directory tells its leading `..` and its names apart. */
  lemma WalkLeads(directory: seq<Text>, stack: seq<Text>, name: Text)
    requires IsNormal(stack) && name !in stack
    requires |directory| >= |stack| && forall i :: 0 <= i < |directory| ==> directory[i] == name
    ensures var there, kept := Walk(directory, stack), |directory| - Ups(stack);
      kept <= |there| && Leading(there, name) == kept && there[kept..] == stack[Ups(stack)..]
  {
    hide *;
    WalkNormal(directory, stack);
    LeadingThere(directory, stack, Ups(stack), name);
    var front := directory[..|directory| - Ups(stack)];
    assert (front + stack[Ups(stack)..])[|front|..] == stack[Ups(stack)..];
  }

  lemma LeadingThere(directory: seq<Text>, stack: seq<Text>, ups: nat, name: Text)
    requires ups <= |stack| && ups <= |directory| && name !in stack
    requires forall i :: 0 <= i < |directory| ==> directory[i] == name
    ensures Leading(directory[..|directory| - ups] + stack[ups..], name) == |directory| - ups
  {
    LeadingAre(directory[..|directory| - ups] + stack[ups..], name, |directory| - ups);
  }

  lemma {:induction false} UpsAreDots(stack: seq<Text>)
    ensures forall i :: 0 <= i < Ups(stack) ==> stack[i] == DOT_DOT
  {
    if stack != [] && stack[0] == DOT_DOT {
      UpsAreDots(stack[1..]);
    }
  }

  /** Two paths normalize alike exactly when they lead to the same place from every directory. */
  lemma NormalizeDecidesMeaning(left: Text, right: Text)
    ensures Normalize(left) == Normalize(right) <==>
      forall directory :: Resolve(directory, left) == Resolve(directory, right)
  {
    var a, b := PushAll([], Components(left)), PushAll([], Components(right));
    PushAllIsNormal([], Components(left));
    PushAllIsNormal([], Components(right));
    if Normalize(left) == Normalize(right) {
      forall directory
        ensures Resolve(directory, left) == Resolve(directory, right)
      {
        NormalizeKeepsMeaning(directory, left);
        NormalizeKeepsMeaning(directory, right);
      }
    } else if forall directory :: Resolve(directory, left) == Resolve(directory, right) {
      var name: Text := seq(Longest(a + b) + 1, _ => 'a');
      assert name !in a + b;
      var directory := seq(|a| + |b|, _ => name);
      PushAllLeadsOn(directory, [], Components(left));
      PushAllLeadsOn(directory, [], Components(right));
      assert Resolve(directory, left) == Resolve(directory, right);
      NormalPathsPart(a, b, directory, name);
    }
  }

  // The byte buffer.

  /** Where the last component starts. */
  lemma JoinLast(stack: seq<Text>)
    requires AreComponents(stack) && stack != []
    ensures var joined, last := Join(stack), stack[|stack| - 1];
      && |joined| >= |last| && joined[|joined| - |last|..] == last
      && (forall i :: |joined| - |last| <= i < |joined| ==> joined[i] != '/')
      && (if |stack| == 1 then |joined| == |last|
          else var before := |joined| - |last| - 1;
            before > 0 && joined[before] == '/' && joined[..before] == Join(stack[..|stack| - 1]))
  {
    if |stack| > 1 {
      JoinNotEmpty(stack[..|stack| - 1]);
      assert Join(stack) == Join(stack[..|stack| - 1]) + SLASH + stack[|stack| - 1];
    }
    var joined, last := Join(stack), stack[|stack| - 1];
    forall i | |joined| - |last| <= i < |joined|
      ensures joined[i] != '/'
    {
      assert joined[i] == last[i - (|joined| - |last|)];
    }
  }

  lemma JoinNotEmpty(stack: seq<Text>)
    requires AreComponents(stack) && stack != []
    ensures Join(stack) != []
  {
  }

  lemma NextComponent(path: Text, component: nat, cursor: nat)
    requires component <= cursor <= |path| && '/' !in path[component..cursor]
    requires cursor == |path| || path[cursor] == '/'
    ensures Components(path[component..]) ==
      (if component == cursor then [] else [path[component..cursor]]) + Components(path[cursor..])
  {
    if component < cursor {
      assert path[component..] == path[component..cursor] + path[cursor..];
      UpToSlashWhole(path[component..cursor], path[cursor..]);
      assert path[component..][cursor - component..] == path[cursor..];
      assert path[component..][0] == path[component..cursor][0];
    }
  }

  lemma SkipSlash(path: Text, cursor: nat)
    requires cursor < |path| && path[cursor] == '/'
    ensures Components(path[cursor..]) == Components(path[cursor + 1..])
  {
    assert path[cursor..][1..] == path[cursor + 1..];
  }

  lemma EmptyJoin()
    ensures Join([]) == []
  {
  }

  lemma NothingToPush(stack: seq<Text>)
    ensures PushAll(stack, Components([])) == stack
  {
  }

  lemma PushNext(stack: seq<Text>, c: Text, rest: seq<Text>)
    ensures PushAll(stack, (if c == [] then [] else [c]) + rest) ==
      PushAll(if c == [] then stack else Push(stack, c), rest)
  {
    if c == [] {
      assert [] + rest == rest;
    } else {
      assert ([c] + rest)[1..] == rest;
    }
  }

  lemma JoinMore(stack: seq<Text>, c: Text)
    ensures Join(stack + [c]) == if stack == [] then c else Join(stack) + SLASH + c
  {
    assert (stack + [c])[..|stack|] == stack;
  }

  /** Skip slashes, then read up to the next one. */
  method ReadComponent(path: Text, from: nat) returns (component: nat, cursor: nat)
    requires from < |path|
    ensures from <= component <= cursor <= |path| && cursor > from
    ensures path[from] == '/' ==> component > from
    ensures '/' !in path[component..cursor] && (cursor == |path| || path[cursor] == '/')
    ensures Components(path[from..]) == Components(path[component..])
  {
    hide Components;
    cursor := from;
    while cursor < |path| && path[cursor] == '/'
      invariant from <= cursor <= |path| && (path[from] == '/' || cursor == from)
      invariant Components(path[from..]) == Components(path[cursor..])
    {
      SkipSlash(path, cursor);
      cursor := cursor + 1;
    }
    component := cursor;
    while cursor < |path| && path[cursor] != '/'
      invariant component <= cursor <= |path| && '/' !in path[component..cursor]
    {
      cursor := cursor + 1;
    }
  }

  /** For a component `..` on a non-empty result: drop the last name, unless that is `..` as well. */
  method Undo(destination: array<char>, used: nat, ghost stack: seq<Text>) returns (used': nat, undone: bool)
    requires IsNormal(stack) && stack != [] && used == |Join(stack)| && Holds(destination[..], Join(stack))
    modifies destination
    ensures undone == (stack[|stack| - 1] != DOT_DOT)
    ensures var after := if undone then stack[..|stack| - 1] else stack;
      used' == |Join(after)| <= used && Holds(destination[..], Join(after))
  {
    hide Join;
    EmptyJoin();
    JoinLast(stack);
    assert forall i :: 0 <= i < used ==> destination[i] == Join(stack)[i];
    ghost var last := stack[|stack| - 1];
    var previousStart := used;
    while previousStart > 0 && destination[previousStart - 1] != '/'
      invariant used - |last| <= previousStart <= used
    {
      previousStart := previousStart - 1;
    }
    assert destination[..used][previousStart..] == last;
    undone := used - previousStart != 2 || destination[previousStart] != '.' || destination[previousStart + 1] != '.';
    used' := used;
    if undone {
      used' := if previousStart == 0 then 0 else previousStart - 1;
      destination[used'] := '\0';
    }
  }

  method Append(destination: array<char>, used: nat, path: Text, component: nat, cursor: nat, ghost stack: seq<Text>)
    returns (used': nat)
    requires component < cursor <= |path| < destination.Length
    requires used <= component && (used > 0 ==> used < component)
    requires AreComponents(stack) && used == |Join(stack)| && Holds(destination[..], Join(stack))
    modifies destination
    ensures used' == |Join(stack + [path[component..cursor]])| <= cursor
    ensures Holds(destination[..], Join(stack + [path[component..cursor]]))
  {
    hide Join;
    EmptyJoin();
    if stack != [] {
      JoinNotEmpty(stack);
    }
    JoinMore(stack, path[component..cursor]);
    used' := used;
    if used > 0 {
      destination[used'] := '/';
      used' := used' + 1;
      destination[used'] := '\0';
    }
    used' := AppendName(destination, used', path, component, cursor);
  }

  method AppendName(destination: array<char>, used: nat, path: Text, component: nat, cursor: nat) returns (used': nat)
    requires component <= cursor <= |path| && used + cursor - component < destination.Length
    modifies destination
    ensures used' == used + cursor - component
    ensures destination[..used'] == old(destination[..used]) + path[component..cursor] && destination[used'] == '\0'
  {
    used' := used;
    for index := 0 to cursor - component
      invariant used' == used + index
      invariant forall i :: 0 <= i < used ==> destination[i] == old(destination[i])
      invariant forall i :: used <= i < used' ==> destination[i] == path[component + (i - used)]
    {
      destination[used'] := path[component + index];
      used' := used' + 1;
    }
    destination[used'] := '\0';
    assert destination[..used'] == old(destination[..used]) + path[component..cursor];
  }

  /** The turn of the outer loop for a component that is not empty. */
  method Take(destination: array<char>, used: nat, path: Text, component: nat, cursor: nat, ghost stack: seq<Text>)
    returns (used': nat)
    requires component < cursor <= |path| < destination.Length && IsComponent(path[component..cursor])
    requires used <= component && (used > 0 ==> used < component)
    requires IsNormal(stack) && used == |Join(stack)| && Holds(destination[..], Join(stack))
    modifies destination
    ensures var after := Push(stack, path[component..cursor]);
      used' == |Join(after)| <= cursor && Holds(destination[..], Join(after))
  {
    hide Join, Holds;
    var length := cursor - component;
    assert path[component..cursor][0] == path[component];
    EmptyJoin();
    if length == 1 && path[component] == '.' {
      assert path[component..cursor] == DOT;
      return used;
    }
    if length == 2 && path[component] == '.' && path[component + 1] == '.' && used > 0 {
      assert path[component..cursor] == DOT_DOT;
      var undone;
      used', undone := Undo(destination, used, stack);
      if undone {
        return;
      }
    }
    if stack != [] {
      JoinNotEmpty(stack);
    }
    used' := Append(destination, used, path, component, cursor, stack);
  }

  /** `normalize_relative_path`.  The path is shorter than the buffer, as its only caller builds it, and the write index
      never passes the bytes read, so every write is inside the buffer. */
  method NormalizeRelativePath(destination: array<char>, path: Text)
    requires |path| < destination.Length
    modifies destination
    ensures Holds(destination[..], Normalize(path))
  {
    hide Components, PushAll, Join;
    destination[0] := '\0';
    var cursor, used := 0, 0;
    ghost var stack: seq<Text> := [];
    EmptyJoin();
    assert path[0..] == path;
    while cursor < |path|
      invariant used <= cursor <= |path| && (0 < cursor < |path| ==> path[cursor] == '/')
      invariant IsNormal(stack) && used == |Join(stack)| && Holds(destination[..], Join(stack))
      invariant PushAll(stack, Components(path[cursor..])) == PushAll([], Components(path))
    {
      var component;
      component, cursor := ReadComponent(path, cursor);
      NextComponent(path, component, cursor);
      PushNext(stack, path[component..cursor], Components(path[cursor..]));
      if component == cursor {
        continue;
      }
      used := Take(destination, used, path, component, cursor, stack);
      PushIsNormal(stack, path[component..cursor]);
      stack := Push(stack, path[component..cursor]);
    }
    assert path[|path|..] == [];
    NothingToPush(stack);
  }

  lemma PushIsNormal(stack: seq<Text>, c: Text)
    requires IsNormal(stack) && IsComponent(c)
    ensures IsNormal(Push(stack, c))
  {
  }
}
