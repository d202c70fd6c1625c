/** How files and includes are named as modules. */
module ModuleNames {
  import opened CStrings
  import opened ModuleMap

  const PREFIX: Text := "p101_"
  const PREFIX_DIRECTORY: Text := "p101/"

  /** `strrchr`. */
  function FindLast(text: Text, c: Byte): (at: Option<nat>)
    ensures at.Some? ==> at.value < |text| && text[at.value] == c && c !in text[at.value + 1..]
    ensures at.None? ==> c !in text
  {
    if text == [] then None
    else if text[|text| - 1] == c then Some(|text| - 1)
    else
      var at := FindLast(text[..|text| - 1], c);
      assert text == text[..|text| - 1] + [text[|text| - 1]];
      assert at.Some? ==> text[at.value + 1..] == text[..|text| - 1][at.value + 1..] + [text[|text| - 1]];
      at
  }

  /** The path up to and with its last `/`. */
  function Folder(path: Text): (folder: Text)
    ensures folder <= path && '/' !in path[|folder|..]
    ensures folder != [] ==> folder[|folder| - 1] == '/'
  {
    var slash := FindLast(path, '/');
    if slash.Some? then path[..slash.value + 1] else []
  }

  /** The file's name without `p101_` and without its last suffix. */
  function ShortName(path: Text): (name: Text)
    ensures |name| < MAX_NAME && |name| <= |path| - |Folder(path)| && '/' !in name
  {
    var base := path[|Folder(path)|..];
    var bare := if PREFIX <= base then base[|PREFIX|..] else base;
    var dot := FindLast(bare, '.');
    Copy(if dot.Some? then bare[..dot.value] else bare, MAX_NAME)
  }

  /** The short name under the same folder. */
  function NormalizeModuleName(name: Text): (normalized: Text)
    ensures |normalized| < MAX_NAME
  {
    Copy(Folder(name) + ShortName(name[|Folder(name)|..]), MAX_NAME)
  }

  /** Behind the folder of a `p101` library, if the name starts with one. */
  function BehindLibrary(name: Text): (behind: Text)
    ensures |behind| <= |name|
  {
    var first := |UpToSlash(name)|;
    if first < |name| && (PREFIX <= name || PREFIX_DIRECTORY <= name) then name[first + 1..] else name
  }

  /** The module that an include names; `@` quotes a module name. */
  function IncludeToModule(target: Text): (name: Text)
    ensures |name| < MAX_NAME
  {
    if "@" <= target then Copy(target[1..], MAX_NAME) else BehindLibrary(NormalizeModuleName(target))
  }

  // Whether an include meets the module of the header that it names.

  lemma FolderOfJoined(folder: Text, path: Text)
    ensures Folder(folder + SLASH + path) == folder + SLASH + Folder(path)
  {
    var joined := folder + SLASH + path;
    var longer := folder + SLASH + Folder(path);
    assert joined[|longer|..] == path[|Folder(path)|..];
    assert longer[|longer| - 1] == '/' && joined[|longer| - 1] == '/';
    FolderIs(joined, longer);
  }

  lemma FolderIs(path: Text, folder: Text)
    requires folder <= path && '/' !in path[|folder|..]
    requires folder == [] || folder[|folder| - 1] == '/'
    ensures Folder(path) == folder
  {
    LastSlash(path, Folder(path), folder);
    LastSlash(path, folder, Folder(path));
  }

  /** A slash is not behind the last one. */
  lemma LastSlash(path: Text, folder: Text, other: Text)
    requires folder <= path && '/' !in path[|folder|..]
    requires other <= path && (other == [] || other[|other| - 1] == '/')
    ensures |other| <= |folder|
  {
    forall k | |folder| <= k < |path|
      ensures path[k] != '/'
    {
      assert path[k] == path[|folder|..][k - |folder|];
    }
  }

  /** The module of a header does not depend on where the header is. */
  lemma ShortNameOfJoined(folder: Text, path: Text)
    ensures ShortName(folder + SLASH + path) == ShortName(path)
  {
    FolderOfJoined(folder, path);
    assert (folder + SLASH + path)[|folder + SLASH + Folder(path)|..] == path[|Folder(path)|..];
  }

  /** The name between the folder and the suffix is the module's, but for `p101_` in front and for what the buffer
      cuts. */
  lemma StemIsModule(folder: Text, stem: Text, suffix: Text)
    requires '/' !in stem && '/' !in suffix && '.' !in suffix
    ensures var name := ShortName(folder + SLASH + stem + "." + suffix);
      var bare := if "p101_" <= stem then stem[5..] else stem;
      name <= bare && (if |bare| < MAX_NAME then name == bare else |name| == MAX_NAME - 1)
  {
    hide ShortName;
    var base := stem + "." + suffix;
    assert folder + SLASH + stem + "." + suffix == folder + SLASH + base;
    ShortNameOfJoined(folder, base);
    StemOfBase(stem, suffix);
  }

  lemma StemOfBase(stem: Text, suffix: Text)
    requires '/' !in stem && '/' !in suffix && '.' !in suffix
    ensures ShortName(stem + "." + suffix) == Copy(if "p101_" <= stem then stem[5..] else stem, MAX_NAME)
  {
    var base := stem + "." + suffix;
    FolderIs(base, []);
    assert base[0..] == base;
    PrefixOfStem(stem, suffix);
    var bare := if "p101_" <= stem then stem[5..] else stem;
    var rest := bare + "." + suffix;
    assert rest == if PREFIX <= base then base[|PREFIX|..] else base;
    LastDot(bare, suffix);
    assert rest[..|bare|] == bare;
    hide Folder, FindLast;
  }

  lemma PrefixOfStem(stem: Text, suffix: Text)
    ensures PREFIX <= stem + "." + suffix <==> "p101_" <= stem
  {
    var base := stem + "." + suffix;
    assert base[|stem|] == '.';
    assert '.' !in PREFIX;
    if PREFIX <= base {
      assert forall i :: 0 <= i < |PREFIX| ==> base[i] == PREFIX[i];
      assert PREFIX == base[..|PREFIX|] == stem[..|PREFIX|];
    }
  }

  lemma LastDot(bare: Text, suffix: Text)
    requires '.' !in suffix
    ensures FindLast(bare + "." + suffix, '.') == Some(|bare|)
  {
    hide FindLast;
    var text := bare + "." + suffix;
    forall k | |bare| < k < |text|
      ensures text[k] != '.'
    {
      assert text[k] == suffix[k - |bare| - 1];
    }
    LastIs(text, '.', |bare|);
  }

  lemma LastIs(text: Text, c: Byte, at: nat)
    requires at < |text| && text[at] == c && forall k :: at < k < |text| ==> text[k] != c
    ensures FindLast(text, c) == Some(at)
  {
    hide FindLast;
    assert text[at] in text;
    var found := FindLast(text, c).value;
    forall k | found < k < |text|
      ensures text[k] != c
    {
      assert text[k] == text[found + 1..][k - found - 1];
    }
  }

  /** So the header and the source of one stem share a module, in whatever folders they are. */
  lemma HeaderMeetsSource(folder: Text, other: Text, stem: Text, header: Text, source: Text)
    requires '/' !in stem
    requires '/' !in header && '.' !in header && '/' !in source && '.' !in source
    ensures ShortName(folder + SLASH + stem + "." + header) == ShortName(other + SLASH + stem + "." + source)
  {
    hide ShortName;
    StemIsModule(folder, stem, header);
    StemIsModule(other, stem, source);
  }

  /** The spelling has no folder, or only one and that of a `p101` library. */
  predicate IsShort(target: Text) {
    var first := |UpToSlash(target)|;
    first == |target|
    || ('/' !in target[first + 1..] && (PREFIX <= target || PREFIX_DIRECTORY <= target))
  }

  /** An include names the module of the header with that spelling exactly when the spelling is short: then it is found
      wherever the header is. */
  lemma IncludeMeetsHeaderIff(folder: Text, target: Text)
    requires |target| < MAX_NAME && !("@" <= target)
    ensures IncludeToModule(target) == ShortName(folder + SLASH + target) <==> IsShort(target)
  {
    hide *;
    ShortNameOfJoined(folder, target);
    NormalizedParts(target);
    var prefix, name := Folder(target), ShortName(target);
    var base := target[|prefix|..];
    assert target == prefix + base;
    if prefix == [] {
      assert prefix + name == name && prefix + base == base;
      WithoutFolder(base, name);
    } else {
      WithFolder(prefix, base, name);
    }
  }

  lemma NormalizedParts(target: Text)
    requires |target| < MAX_NAME && !("@" <= target)
    ensures IncludeToModule(target) == BehindLibrary(Folder(target) + ShortName(target))
  {
    ShortNameOfBase(target);
    hide Folder, ShortName, BehindLibrary;
  }

  lemma WithoutFolder(base: Text, name: Text)
    requires '/' !in base && '/' !in name
    ensures BehindLibrary(name) == name && IsShort(base)
  {
    NoSlash(base);
    NoSlash(name);
  }

  lemma WithFolder(prefix: Text, base: Text, name: Text)
    requires prefix != [] && prefix[|prefix| - 1] == '/' && '/' !in base && '/' !in name
    ensures BehindLibrary(prefix + name) == name <==> IsShort(prefix + base)
  {
    FirstSlashIn(prefix, base);
    FirstSlashIn(prefix, name);
    SameStart(prefix, name, base, PREFIX);
    SameStart(prefix, name, base, PREFIX_DIRECTORY);
    hide UpToSlash, IsShort, BehindLibrary;
    var first := |UpToSlash(prefix)|;
    BehindIs(prefix, name, first);
    ShortIs(prefix, base, first);
  }

  lemma BehindIs(prefix: Text, name: Text, first: nat)
    requires first < |prefix| && |UpToSlash(prefix + name)| == first
    ensures BehindLibrary(prefix + name) == name <==>
      first + 1 == |prefix| && (PREFIX <= prefix + name || PREFIX_DIRECTORY <= prefix + name)
  {
    hide UpToSlash;
    var whole := prefix + name;
    assert whole[|prefix|..] == name;
  }

  lemma ShortIs(prefix: Text, base: Text, first: nat)
    requires first < |prefix| && |UpToSlash(prefix + base)| == first
    requires prefix[|prefix| - 1] == '/' && '/' !in base
    ensures IsShort(prefix + base) <==>
      first + 1 == |prefix| && (PREFIX <= prefix + base || PREFIX_DIRECTORY <= prefix + base)
  {
    hide UpToSlash;
    var whole := prefix + base;
    assert whole[|prefix|..] == base;
    if first + 1 < |prefix| {
      assert whole[first + 1..][|prefix| - 1 - (first + 1)] == '/';
    }
  }

  lemma ShortNameOfBase(path: Text)
    ensures ShortName(path[|Folder(path)|..]) == ShortName(path)
  {
    var base := path[|Folder(path)|..];
    FolderIs(base, []);
    assert base[0..] == base;
  }

  lemma NoSlash(text: Text)
    requires '/' !in text
    ensures UpToSlash(text) == text
  {
  }

  lemma {:induction false} FirstSlashIn(prefix: Text, rest: Text)
    requires '/' in prefix
    ensures UpToSlash(prefix + rest) == UpToSlash(prefix) && |UpToSlash(prefix)| < |prefix|
  {
    var c := UpToSlash(prefix);
    assert c != prefix;
    assert prefix + rest == c + (prefix[|c|..] + rest);
    UpToSlashWhole(c, prefix[|c|..] + rest);
  }

  /** Whether a path with a folder starts so, where a slash can only be the last byte, is decided by the folder. */
  lemma SameStart(prefix: Text, left: Text, right: Text, start: Text)
    requires prefix != [] && prefix[|prefix| - 1] == '/'
    requires start != [] && '/' !in start[..|start| - 1]
    ensures start <= prefix + left <==> start <= prefix + right
  {
    if |start| <= |prefix| {
      assert (prefix + left)[..|start|] == prefix[..|start|] == (prefix + right)[..|start|];
    } else {
      assert start[..|start| - 1][|prefix| - 1] == start[|prefix| - 1];
      assert start[|prefix| - 1] != (prefix + left)[|prefix| - 1] == (prefix + right)[|prefix| - 1];
    }
  }
}
