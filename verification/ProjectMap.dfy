/** The mutable project map: the functions that the loaders call, proved against the operations on `Tables`. */
module ProjectMap {
  import opened CStrings
  import opened LocalIncludes
  import opened PathNormalizer
  import opened ModuleMap
  import opened ModuleNames

  class ProjectMap {
    var files: seq<SourceFile>
    var modules: seq<Module>
    var functions: seq<FunctionRecord>
    var includes: seq<IncludeRecord>
    var macros: seq<NameRecord>
    var types: seq<NameRecord>

    constructor ()
      ensures State() == NO_TABLES
    {
      files, modules, functions, includes, macros, types := [], [], [], [], [], [];
    }

    function State(): Tables
      reads this
    {
      Tables(files, modules, functions, includes, macros, types)
    }

    method FindModule(name: Text) returns (index: Option<nat>)
      modifies `modules
      ensures (State(), index) == GetModule(old(State()), name)
    {
      for i := 0 to |modules|
        invariant modules == old(modules) && ModuleIndex(modules, name) == ModuleIndex(modules, name, i)
      {
        if modules[i].name == name {
          return Some(i);
        }
      }
      if |modules| >= MAX_MODULES {
        return None;
      }
      modules := modules + [NewModule(name)];
      index := Some(|modules| - 1);
    }

    method AddNamedSourceFile(path: Text, moduleName: Text, isHeader: bool) returns (raised: bool)
      modifies this
      ensures Outcome(State(), raised) == AddFile(old(State()), path, moduleName, isHeader)
    {
      if |files| >= MAX_FILES {
        return true;
      }
      var index := FindModule(moduleName);
      if index == None {
        return true;
      }
      var i := index.value;
      files := files + [SourceFile(Copy(path, PATH_LEN), Copy(moduleName, MAX_NAME), isHeader)];
      if isHeader {
        modules := modules[i := modules[i].(headerCount := modules[i].headerCount + 1)];
        if modules[i].headerPath == [] {
          modules := modules[i := modules[i].(headerPath := Copy(path, PATH_LEN))];
        }
      } else {
        modules := modules[i := modules[i].(sourceCount := modules[i].sourceCount + 1)];
        if modules[i].sourcePath == [] {
          modules := modules[i := modules[i].(sourcePath := Copy(path, PATH_LEN))];
        }
      }
      raised := false;
    }

    method AddSourceFile(path: Text, isHeader: bool) returns (raised: bool)
      modifies this
      ensures Outcome(State(), raised) == AddFile(old(State()), path, ShortName(path), isHeader)
    {
      raised := AddNamedSourceFile(path, ShortName(path), isHeader);
    }

    method AddInclude(file: SourceFile, target: Text, resolved: Option<Text>, line: nat, isLocal: bool)
      returns (raised: bool)
      requires |file.moduleName| < MAX_NAME
      modifies this
      ensures var named := if isLocal then TargetModule(file.moduleName, target) else target;
        var path := if resolved.Some? then resolved.value else [];
        Outcome(State(), raised) == ModuleMap.AddInclude(old(State()), file, named, path, line, isLocal)
    {
      hide TargetModule, Copy, ModuleIndex;
      if |includes| >= MAX_INCLUDES {
        return true;
      }
      var index := FindModule(file.moduleName);
      if index == None {
        return true;
      }
      var i := index.value;
      var path := if resolved.Some? then resolved.value else [];
      var named := target;
      if isLocal {
        named := LocalIncludeToModule(file.moduleName, target);
        modules := modules[i := modules[i].(localIncludeCount := modules[i].localIncludeCount + 1)];
      } else {
        modules := modules[i := modules[i].(externalIncludeCount := modules[i].externalIncludeCount + 1)];
      }
      var inclusion := IncludeRecord(
        file.moduleName, Copy(named, MAX_NAME), file.path, Copy(path, PATH_LEN), line, isLocal);
      includes := includes + [inclusion];
      raised := false;
    }

    method AddFunction(
      file: SourceFile, name: Text, usr: Option<Text>, line: nat, isStatic: bool, isHeaderDeclaration: bool)
      returns (raised: bool)
      modifies this
      ensures Outcome(State(), raised) ==
        ModuleMap.AddFunction(old(State()), file, name, usr, line, isStatic, isHeaderDeclaration)
    {
      if |functions| >= MAX_FUNCTIONS || usr == None || |usr.value| >= MAX_NAME {
        return true;
      }
      for index := 0 to |functions|
        invariant State() == old(State()) && !HasFunctionAt(functions[..index], name, file.path, line)
      {
        if SameSite(functions[index].name, functions[index].path, functions[index].line, name, file.path, line) {
          assert functions[index] in functions;
          return false;
        }
        assert functions[..index + 1] == functions[..index] + [functions[index]];
      }
      assert functions[..|functions|] == functions;
      var index := FindModule(file.moduleName);
      if index == None {
        return true;
      }
      var i := index.value;
      var f := FunctionRecord(
        Copy(name, MAX_NAME), usr.value, file.moduleName, file.path, line, isStatic, isHeaderDeclaration);
      functions := functions + [f];
      if isHeaderDeclaration {
        modules := modules[i := modules[i].(headerDeclarationCount := modules[i].headerDeclarationCount + 1)];
      } else {
        modules := modules[i := modules[i].(functionCount := modules[i].functionCount + 1)];
        if isStatic {
          modules := modules[i := modules[i].(staticFunctionCount := modules[i].staticFunctionCount + 1)];
        } else {
          modules := modules[i := modules[i].(publicFunctionCount := modules[i].publicFunctionCount + 1)];
        }
      }
      raised := false;
    }

    method AddMacro(file: SourceFile, name: Text, line: nat) returns (raised: bool)
      modifies this
      ensures Outcome(State(), raised) == ModuleMap.AddMacro(old(State()), file, name, line)
    {
      if |macros| >= MAX_MACROS {
        return true;
      }
      var duplicate := FindName(macros, name, file.path, line);
      if duplicate {
        return false;
      }
      var index := FindModule(file.moduleName);
      if index == None {
        return true;
      }
      var i := index.value;
      macros := macros + [NameRecord(Copy(name, MAX_NAME), file.moduleName, file.path, line, file.isHeader)];
      modules := modules[i := modules[i].(macroCount := modules[i].macroCount + 1)];
      raised := false;
    }

    method AddType(file: SourceFile, name: Text, line: nat) returns (raised: bool)
      modifies this
      ensures Outcome(State(), raised) == ModuleMap.AddType(old(State()), file, name, line)
    {
      if |types| >= MAX_TYPES {
        return true;
      }
      var index := FindModule(file.moduleName);
      if index == None {
        return true;
      }
      var duplicate := FindName(types, name, file.path, line);
      if duplicate {
        return false;
      }
      var i := index.value;
      types := types + [NameRecord(Copy(name, MAX_NAME), file.moduleName, file.path, line, file.isHeader)];
      modules := modules[i := modules[i].(typeCount := modules[i].typeCount + 1)];
      raised := false;
    }
  }

  /** The duplicate scan of macros and of types. */
  method FindName(records: seq<NameRecord>, name: Text, path: Text, line: nat) returns (found: bool)
    ensures found == HasNameAt(records, name, path, line)
  {
    for index := 0 to |records|
      invariant !HasNameAt(records[..index], name, path, line)
    {
      if SameSite(records[index].name, records[index].path, records[index].line, name, path, line) {
        assert records[index] in records;
        return true;
      }
      assert records[..index + 1] == records[..index] + [records[index]];
    }
    assert records[..|records|] == records;
    found := false;
  }

  /** `local_include_to_module`: the joined path is cut to its buffer, so normalizing it always fits. */
  method LocalIncludeToModule(moduleName: Text, target: Text) returns (named: Text)
    requires |moduleName| < MAX_NAME
    ensures named == TargetModule(moduleName, target)
  {
    if IsRelative(target) {
      var slash := FindLast(moduleName, '/');
      var directoryLength := if slash.Some? then slash.value else 0;
      var joined := moduleName[..directoryLength];
      if directoryLength > 0 {
        joined := joined + SLASH;
      }
      assert joined + target == Joined(moduleName, target);
      hide *;
      joined := Copy(joined + target, MAX_NAME);
      var normalized := new char[MAX_NAME];
      NormalizeRelativePath(normalized, joined);
      var text := ReadText(normalized, Normalize(joined));
      named := IncludeToModule(text);
    } else {
      named := IncludeToModule(target);
    }
  }

  /** The C string in a buffer, up to its terminator. */
  method ReadText(buffer: array<char>, ghost text: Text) returns (read: Text)
    requires Holds(buffer[..], text)
    ensures read == text
  {
    read := [];
    var i := 0;
    assert forall k :: 0 <= k < |text| ==> buffer[k] == text[k];
    while buffer[i] != '\0'
      invariant i <= |text| && read == text[..i]
      decreases |text| - i
    {
      read := read + [buffer[i]];
      i := i + 1;
    }
  }
}
