/** Which module a local include names, and when that is the module of the header. */
module LocalIncludes {
  import opened CStrings
  import opened PathNormalizer
  import opened ModuleMap
  import opened ModuleNames

  predicate IsRelative(target: Text) { "./" <= target || "../" <= target }

  /** The target behind the folder of the including module; the root is no folder. */
  function Joined(moduleName: Text, target: Text): Text {
    var folder := Folder(moduleName);
    if |folder| > 1 then folder + target else target
  }

  /** A relative target is taken from the including module's folder, cut to its buffer and normalized. */
  function Spelled(moduleName: Text, target: Text): Text {
    if IsRelative(target) then Normalize(Copy(Joined(moduleName, target), MAX_NAME)) else target
  }

  function TargetModule(moduleName: Text, target: Text): Text { IncludeToModule(Spelled(moduleName, target)) }

  // Normalization never makes a path longer.

  /** The bytes of the components, each with a slash. */
  function Width(stack: seq<Text>): nat {
    if stack == [] then 0 else Width(stack[..|stack| - 1]) + |stack[|stack| - 1]| + 1
  }

  lemma {:induction false} JoinWidth(stack: seq<Text>)
    ensures |Join(stack)| == if stack == [] then 0 else Width(stack) - 1
  {
    if |stack| == 1 {
      assert Width(stack[..0]) == 0;
    } else if |stack| > 1 {
      JoinWidth(stack[..|stack| - 1]);
    }
  }

  lemma PushWidth(stack: seq<Text>, c: Text)
    ensures Width(Push(stack, c)) <= Width(stack) + |c| + 1
  {
    assert (stack + [c])[..|stack|] == stack;
  }

  lemma {:induction false} PushAllWidth(stack: seq<Text>, path: Text)
    ensures Width(PushAll(stack, Components(path))) <= Width(stack) + |path| + 1
    decreases |path|
  {
    if path == [] {
    } else if path[0] == '/' {
      PushAllWidth(stack, path[1..]);
    } else {
      var c := UpToSlash(path);
      var rest := path[|c|..];
      PushWidth(stack, c);
      hide Push, Width;
      assert Components(path) == [c] + Components(rest);
      assert PushAll(stack, Components(path)) == PushAll(Push(stack, c), Components(rest)) by {
        PushNext(stack, c, Components(rest));
      }
      hide PushAll;
      if rest == [] {
        NothingToPush(Push(stack, c));
      } else {
        SkipSlash(path, |c|);
        PushAllWidth(Push(stack, c), path[|c| + 1..]);
      }
    }
  }

  lemma NormalizeShortens(path: Text)
    ensures |Normalize(path)| <= |path|
  {
    var stack := PushAll([], Components(path));
    PushAllWidth([], path);
    JoinWidth(stack);
  }

  // The quoted names.

  /** A quoted name keeps its suffix, so it is never the short name of the header. */
  lemma QuotedNeverMeets(target: Text)
    requires "@" <= target && |target| < MAX_NAME
    ensures IncludeToModule(target) != ShortName(target)
  {
    var name := target[1..];
    if '/' in name {
      assert '/' !in ShortName(target);
    } else {
      FolderIs(target, []);
      assert target[0..] == target;
      var dot := FindLast(target, '.');
      if dot.Some? {
        FirstDot(target, dot.value);
      }
    }
  }

  /** A text shifted by one byte has its first dot elsewhere. */
  lemma FirstDot(target: Text, last: nat)
    requires 0 < last < |target| && target[last] == '.' && target[0] != '.'
    ensures target[1..] != target[..last]
  {
    var first := last;
    while exists k :: 0 <= k < first && target[k] == '.'
      invariant 0 < first <= last && target[first] == '.'
      decreases first
    {
      var k :| 0 <= k < first && target[k] == '.';
      first := k;
    }
    assert target[1..][first - 1] == '.' != target[..last][first - 1];
  }

  // Whether a local include meets its header.

  /** For every including module: the include names the module that the native scan gives to the header exactly when
      what is spelled, after normalization, is not quoted and is short. */
  lemma LocalIncludeMeetsHeaderIff(moduleName: Text, target: Text, folder: Text)
    requires |target| < MAX_NAME
    ensures var spelled := Spelled(moduleName, target);
      TargetModule(moduleName, target) == ShortName(folder + SLASH + spelled) <==> !("@" <= spelled) && IsShort(spelled)
  {
    var spelled := Spelled(moduleName, target);
    NormalizeShortens(Copy(Joined(moduleName, target), MAX_NAME));
    if "@" <= spelled {
      QuotedNeverMeets(spelled);
      ShortNameOfJoined(folder, spelled);
    } else {
      IncludeMeetsHeaderIff(folder, spelled);
    }
  }

  /** What is spelled leads, from anywhere, where the folder of the module and then the target lead. */
  lemma SpelledLeads(directory: seq<Text>, folder: Text, base: Text, target: Text)
    requires IsRelative(target) && folder != [] && '/' !in base && |folder| + 1 + |target| < MAX_NAME
    ensures Resolve(directory, Spelled(folder + SLASH + base, target)) == Resolve(Resolve(directory, folder), target)
  {
    var moduleName, above := folder + SLASH + base, folder + SLASH;
    assert moduleName[|above|..] == base;
    FolderIs(moduleName, above);
    hide *;
    JoinedBehind(moduleName, above, target);
    SpelledIs(moduleName, target);
    NormalizeKeepsMeaning(directory, folder + SLASH + target);
    ResolveAppend(directory, folder, target);
  }

  /** Without a folder it leads where the target leads. */
  lemma SpelledLeadsAlone(directory: seq<Text>, moduleName: Text, target: Text)
    requires IsRelative(target) && '/' !in moduleName && |target| < MAX_NAME
    ensures Resolve(directory, Spelled(moduleName, target)) == Resolve(directory, target)
  {
    FolderIs(moduleName, []);
    NormalizeKeepsMeaning(directory, target);
    hide Folder, Resolve, Normalize;
  }

  lemma JoinedBehind(moduleName: Text, above: Text, target: Text)
    requires Folder(moduleName) == above && |above| > 1
    ensures Joined(moduleName, target) == above + target
  {
  }

  lemma SpelledIs(moduleName: Text, target: Text)
    requires IsRelative(target) && |Joined(moduleName, target)| < MAX_NAME
    ensures Spelled(moduleName, target) == Normalize(Joined(moduleName, target))
  {
    hide Joined, Normalize;
  }

  lemma ResolveAppend(directory: seq<Text>, folder: Text, target: Text)
    ensures Resolve(directory, folder + SLASH + target) == Resolve(Resolve(directory, folder), target)
  {
    ComponentsAppend(folder, target);
    WalkAppend(directory, Components(folder), Components(target));
    hide Components, Walk;
  }

  function BaseName(path: Text): (base: Text)
    ensures '/' !in base
  {
    path[|Folder(path)|..]
  }

  predicate NamesFile(target: Text) {
    BaseName(target) != [] && BaseName(target) != DOT && BaseName(target) != DOT_DOT
  }

  /** Normalization keeps the file's name, so the header has one module name whether its path is normalized or not. */
  lemma SpellingKeepsFile(moduleName: Text, target: Text, folder: Text)
    requires |Joined(moduleName, target)| < MAX_NAME && NamesFile(target)
    ensures ShortName(folder + SLASH + Spelled(moduleName, target)) == ShortName(folder + SLASH + target)
  {
    hide *;
    ShortNameOfJoined(folder, target);
    ShortNameOfJoined(folder, Spelled(moduleName, target));
    SpelledBase(moduleName, target);
    SameBase(target, Spelled(moduleName, target));
  }

  lemma SameBase(path: Text, other: Text)
    requires BaseName(path) == BaseName(other)
    ensures ShortName(path) == ShortName(other)
  {
    ShortNameOfBase(path);
    ShortNameOfBase(other);
  }

  lemma SpelledBase(moduleName: Text, target: Text)
    requires |Joined(moduleName, target)| < MAX_NAME && NamesFile(target)
    ensures BaseName(Spelled(moduleName, target)) == BaseName(target)
  {
    hide Folder, Joined, Normalize, BaseName, IsRelative;
    var front := JoinedParts(moduleName, target);
    NormalizeKeepsBase(front, BaseName(target));
  }

  lemma JoinedParts(moduleName: Text, target: Text) returns (front: Text)
    ensures Joined(moduleName, target) == front + BaseName(target)
    ensures front == [] || front[|front| - 1] == '/'
  {
    hide *;
    var above, below := Above(moduleName), Folder(target);
    FolderAndBase(target);
    JoinedIsAbove(moduleName, target);
    front := above + below;
  }

  function Above(moduleName: Text): (above: Text)
    ensures above == [] || above[|above| - 1] == '/'
  {
    if |Folder(moduleName)| > 1 then Folder(moduleName) else []
  }

  lemma JoinedIsAbove(moduleName: Text, target: Text)
    ensures Joined(moduleName, target) == Above(moduleName) + target
  {
    hide Folder;
    assert [] + target == target;
  }

  lemma FolderAndBase(path: Text)
    ensures path == Folder(path) + BaseName(path)
  {
    hide Folder;
  }

  lemma NormalizeKeepsBase(folder: Text, base: Text)
    requires folder == [] || folder[|folder| - 1] == '/'
    requires '/' !in base && base != [] && base != DOT && base != DOT_DOT
    ensures BaseName(Normalize(folder + base)) == base
  {
    ComponentsWithBase(folder, base);
    var front := PushAll([], Components(folder));
    PushAllLast([], Components(folder), base);
    JoinMore(front, base);
    hide PushAll, Components, Folder;
    var normalized := Normalize(folder + base);
    var above := normalized[..|normalized| - |base|];
    assert normalized[|above|..] == base;
    FolderIs(normalized, above);
  }

  lemma ComponentsWithBase(folder: Text, base: Text)
    requires folder == [] || folder[|folder| - 1] == '/'
    requires IsComponent(base)
    ensures Components(folder + base) == Components(folder) + [base]
  {
    ComponentsOfOne(base);
    NothingInNothing();
    hide Components;
    if folder == [] {
      assert folder + base == base;
    } else {
      var inner := folder[..|folder| - 1];
      SlashAtEnd(folder);
      assert inner + SLASH + [] == inner + SLASH;
      ComponentsAppend(inner, base);
      ComponentsAppend(inner, []);
      hide *;
      assert Components(folder) + [base] == Components(inner) + [base];
    }
  }

  lemma SlashAtEnd(folder: Text)
    requires folder != [] && folder[|folder| - 1] == '/'
    ensures folder == folder[..|folder| - 1] + SLASH
  {
  }

  lemma NothingInNothing()
    ensures Components([]) == []
  {
  }

  lemma {:induction false} PushAllLast(stack: seq<Text>, components: seq<Text>, c: Text)
    requires c != DOT && c != DOT_DOT
    ensures PushAll(stack, components + [c]) == PushAll(stack, components) + [c]
    decreases |components|
  {
    if components == [] {
      assert PushAll(stack + [c], [c][1..]) == stack + [c];
    } else {
      assert (components + [c])[1..] == components[1..] + [c];
      PushAllLast(Push(stack, components[0]), components[1..], c);
    }
  }

  // The two sides of the condition.

  /** A header beside the source is met through `./`. */
  lemma SiblingMeets(moduleName: Text, name: Text, folder: Text)
    requires '/' !in moduleName && '/' !in name && !("@" <= name)
    requires name != [] && name != DOT && name != DOT_DOT && |name| + 2 < MAX_NAME
    ensures !IsShort("./" + name)
    ensures TargetModule(moduleName, "./" + name) == ShortName(folder + SLASH + "./" + name)
  {
    hide *;
    var target: Text := "./" + name;
    SiblingSpelling(moduleName, name);
    SiblingIsLong(name);
    ShortNameOfJoined(folder, name);
    ShortNameOfJoined(folder, target);
    assert folder + SLASH + "./" + name == folder + SLASH + target;
    LocalIncludeMeetsHeaderIff(moduleName, target, folder);
  }

  lemma SiblingIsLong(name: Text)
    requires '/' !in name
    ensures !IsShort("./" + name) && IsShort(name) && ShortName("./" + name) == ShortName(name)
  {
    hide FindLast, ShortName;
    var target: Text := "./" + name;
    NoSlash(name);
    assert target == DOT + SLASH + name;
    NestedIsLong(DOT, name);
    assert target[2..] == name == name[0..];
    FolderIs(target, "./");
    FolderIs(name, []);
    SameBase(target, name);
  }

  lemma SiblingSpelling(moduleName: Text, name: Text)
    requires '/' !in moduleName && '/' !in name && name != [] && name != DOT && name != DOT_DOT
    requires |name| + 2 < MAX_NAME
    ensures Spelled(moduleName, "./" + name) == name
  {
    hide Normalize;
    FolderIs(moduleName, []);
    NormalizeSibling(name);
  }

  lemma NormalizeSibling(name: Text)
    requires '/' !in name && name != [] && name != DOT && name != DOT_DOT
    ensures Normalize("./" + name) == name
  {
    var folder: Text := "./";
    ComponentsOfOne(DOT);
    ComponentsAppend(DOT, []);
    assert folder == DOT + SLASH + [];
    assert Components(folder) == [DOT];
    ComponentsWithBase(folder, name);
    PushAllLast([], [DOT], name);
    assert PushAll([], [DOT]) == [] by {
      assert [DOT][1..] == [];
    }
  }

  /** A header in a folder beside that of the source is missed. */
  lemma ParentMisses(folder: Text)
    ensures TargetModule("main", "../include/x.h") != ShortName(folder + SLASH + "../include/x.h")
  {
    ParentSpelling();
    ParentIsLong();
    hide Spelled, IsShort, TargetModule, ShortName;
    LocalIncludeMeetsHeaderIff("main", "../include/x.h", folder);
  }

  lemma ParentSpelling()
    ensures Spelled("main", "../include/x.h") == "../include/x.h"
  {
    hide Normalize;
    FolderIs("main", []);
    NormalizeParent();
  }

  lemma ParentIsLong()
    ensures !IsShort("../include/x.h")
  {
    var rest: Text := "include/x.h";
    assert rest[7] == '/';
    assert DOT_DOT + SLASH + rest == "../include/x.h";
    hide IsShort;
    NestedIsLong(DOT_DOT, rest);
  }

  lemma NestedIsLong(head: Text, rest: Text)
    requires '/' !in head
    requires '/' in rest || (head != [] && head[0] == '.')
    ensures !IsShort(head + SLASH + rest)
  {
    hide UpToSlash;
    var target := head + SLASH + rest;
    assert target == head + (SLASH + rest);
    UpToSlashWhole(head, SLASH + rest);
    assert target[|head| + 1..] == rest;
  }

  lemma NormalizeParent()
    ensures Normalize("../include/x.h") == "../include/x.h"
  {
    var stack: seq<Text> := ["..", "include", "x.h"];
    assert stack[..2][..1] == [".."] && stack[..2] == ["..", "include"];
    assert Join(stack[..2]) == "../include";
    assert Join(stack) == "../include/x.h";
    assert IsNormal(stack);
    ComponentsOfJoin(stack);
    assert [] + stack == stack;
    PushAllNormal([], stack);
  }
}
