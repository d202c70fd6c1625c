/** The project map: bounded tables of records, and modules whose counters summarize them. */
module ModuleMap {
  import opened CStrings

  const MAX_MODULES: nat := 512
  const MAX_FILES: nat := 1024
  const MAX_FUNCTIONS: nat := 4096
  const MAX_INCLUDES: nat := 4096
  const MAX_MACROS: nat := 2048
  const MAX_TYPES: nat := 2048
  const MAX_NAME: nat := 128
  const PATH_LEN: nat := 1024

  /** A bounded copy truncates; what fits is copied whole. */
  function Copy(text: Text, size: nat): (copied: Text)
    requires size > 0
    ensures |copied| < size && (|text| < size ==> copied == text)
  {
    if |text| < size then text else text[..size - 1]
  }

  datatype SourceFile = SourceFile(path: Text, moduleName: Text, isHeader: bool)

  datatype Module = Module(
    name: Text,
    sourcePath: Text,
    headerPath: Text,
    sourceCount: nat,
    headerCount: nat,
    functionCount: nat,
    publicFunctionCount: nat,
    staticFunctionCount: nat,
    headerDeclarationCount: nat,
    macroCount: nat,
    typeCount: nat,
    localIncludeCount: nat,
    externalIncludeCount: nat)

  datatype FunctionRecord = FunctionRecord(
    name: Text, usr: Text, moduleName: Text, path: Text, line: nat, isStatic: bool, isHeaderDeclaration: bool)

  datatype IncludeRecord = IncludeRecord(
    fromModule: Text, target: Text, path: Text, resolved: Text, line: nat, isLocal: bool)

  /** Macros and types have records of the same shape. */
  datatype NameRecord = NameRecord(name: Text, moduleName: Text, path: Text, line: nat, isHeader: bool)

  /** The tables that the counters summarize. */
  datatype Tables = Tables(
    files: seq<SourceFile>,
    modules: seq<Module>,
    functions: seq<FunctionRecord>,
    includes: seq<IncludeRecord>,
    macros: seq<NameRecord>,
    types: seq<NameRecord>)

  const NO_TABLES := Tables([], [], [], [], [], [])

  // Counting.

  function Count<T>(records: seq<T>, matches: T -> bool): nat {
    if records == [] then 0
    else Count(records[..|records| - 1], matches) + if matches(records[|records| - 1]) then 1 else 0
  }

  lemma CountAppend<T>(records: seq<T>, record: T, matches: T -> bool)
    ensures Count(records + [record], matches) == Count(records, matches) + if matches(record) then 1 else 0
  {
    assert (records + [record])[..|records|] == records;
  }

  lemma {:induction false} CountNone<T>(records: seq<T>, matches: T -> bool)
    requires forall r :: r in records ==> !matches(r)
    ensures Count(records, matches) == 0
  {
    if records != [] {
      CountNone(records[..|records| - 1], matches);
    }
  }

  /** The first path that is not empty, among the files that match. */
  function FirstPath(files: seq<SourceFile>, matches: SourceFile -> bool): Text {
    if files == [] then []
    else
      var before := FirstPath(files[..|files| - 1], matches);
      if before == [] && matches(files[|files| - 1]) then files[|files| - 1].path else before
  }

  lemma FirstPathAppend(files: seq<SourceFile>, file: SourceFile, matches: SourceFile -> bool)
    ensures FirstPath(files + [file], matches) ==
      if FirstPath(files, matches) == [] && matches(file) then file.path else FirstPath(files, matches)
  {
    assert (files + [file])[..|files|] == files;
  }

  lemma {:induction false} FirstPathNone(files: seq<SourceFile>, matches: SourceFile -> bool)
    requires forall f :: f in files ==> !matches(f)
    ensures FirstPath(files, matches) == []
  {
    if files != [] {
      FirstPathNone(files[..|files| - 1], matches);
    }
  }

  // What each counter counts.

  function FileOf(name: Text, isHeader: bool): SourceFile -> bool {
    (f: SourceFile) => f.moduleName == name && f.isHeader == isHeader
  }

  function DefinitionOf(name: Text): FunctionRecord -> bool {
    (f: FunctionRecord) => f.moduleName == name && !f.isHeaderDeclaration
  }

  function LinkageOf(name: Text, isStatic: bool): FunctionRecord -> bool {
    (f: FunctionRecord) => f.moduleName == name && !f.isHeaderDeclaration && f.isStatic == isStatic
  }

  function DeclarationOf(name: Text): FunctionRecord -> bool {
    (f: FunctionRecord) => f.moduleName == name && f.isHeaderDeclaration
  }

  function IncludeOf(name: Text, isLocal: bool): IncludeRecord -> bool {
    (i: IncludeRecord) => i.fromModule == name && i.isLocal == isLocal
  }

  function NameOf(name: Text): NameRecord -> bool { (r: NameRecord) => r.moduleName == name }

  ghost predicate CountsFiles(files: seq<SourceFile>, m: Module) {
    && m.sourceCount == Count(files, FileOf(m.name, false))
    && m.headerCount == Count(files, FileOf(m.name, true))
    && m.sourcePath == FirstPath(files, FileOf(m.name, false))
    && m.headerPath == FirstPath(files, FileOf(m.name, true))
  }

  ghost predicate CountsFunctions(functions: seq<FunctionRecord>, m: Module) {
    && m.functionCount == Count(functions, DefinitionOf(m.name))
    && m.publicFunctionCount == Count(functions, LinkageOf(m.name, false))
    && m.staticFunctionCount == Count(functions, LinkageOf(m.name, true))
    && m.headerDeclarationCount == Count(functions, DeclarationOf(m.name))
    && m.functionCount == m.staticFunctionCount + m.publicFunctionCount
  }

  ghost predicate CountsIncludes(includes: seq<IncludeRecord>, m: Module) {
    && m.localIncludeCount == Count(includes, IncludeOf(m.name, true))
    && m.externalIncludeCount == Count(includes, IncludeOf(m.name, false))
  }

  ghost predicate CountsNames(t: Tables, m: Module) {
    && m.macroCount == Count(t.macros, NameOf(m.name))
    && m.typeCount == Count(t.types, NameOf(m.name))
  }

  /** Every counter of the module is the number of records it summarizes, and its paths are those of its first files. */
  ghost predicate IsCounted(t: Tables, m: Module) {
    CountsFiles(t.files, m) && CountsFunctions(t.functions, m) && CountsIncludes(t.includes, m) && CountsNames(t, m)
  }

  predicate HasModule(modules: seq<Module>, name: Text) { ModuleIndex(modules, name) < |modules| }

  ghost predicate DistinctModules(modules: seq<Module>) {
    forall i, j :: 0 <= i < j < |modules| ==> modules[i].name != modules[j].name
  }

  predicate SameFunctionSite(f: FunctionRecord, g: FunctionRecord) {
    SameSite(f.name, f.path, f.line, g.name, g.path, g.line)
  }

  predicate SameNameSite(r: NameRecord, s: NameRecord) { SameSite(r.name, r.path, r.line, s.name, s.path, s.line) }

  predicate SameSite(name: Text, path: Text, line: nat, name': Text, path': Text, line': nat) {
    line == line' && name == name' && path == path'
  }

  ghost predicate DistinctNames(records: seq<NameRecord>) {
    forall i, j :: 0 <= i < j < |records| ==> !SameNameSite(records[i], records[j])
  }

  ghost predicate DistinctFunctions(records: seq<FunctionRecord>) {
    forall i, j :: 0 <= i < j < |records| ==> !SameFunctionSite(records[i], records[j])
  }

  /** Every record belongs to a module of the map. */
  ghost predicate RecordsHaveModules(t: Tables) {
    && (forall f :: f in t.files ==> HasModule(t.modules, f.moduleName))
    && (forall f :: f in t.functions ==> HasModule(t.modules, f.moduleName))
    && (forall i :: i in t.includes ==> HasModule(t.modules, i.fromModule))
    && (forall r :: r in t.macros ==> HasModule(t.modules, r.moduleName))
    && (forall r :: r in t.types ==> HasModule(t.modules, r.moduleName))
  }

  /** Module names differ, every record has a module, and every counter is right. */
  ghost predicate IsSummarized(t: Tables) {
    && DistinctModules(t.modules) && RecordsHaveModules(t)
    && (forall m :: m in t.modules ==> IsCounted(t, m))
  }

  /** No two functions, macros or types share name, path and line. */
  ghost predicate DistinctSites(t: Tables) {
    DistinctFunctions(t.functions) && DistinctNames(t.macros) && DistinctNames(t.types)
  }

  // The operations on the tables.  `raised` is the error object's state afterwards.

  datatype Outcome = Outcome(tables: Tables, raised: bool)

  function ModuleIndex(modules: seq<Module>, name: Text, from: nat := 0): (index: nat)
    requires from <= |modules|
    ensures from <= index <= |modules|
    ensures index < |modules| ==> modules[index].name == name
    ensures forall k :: from <= k < index ==> modules[k].name != name
    decreases |modules| - from
  {
    if from == |modules| || modules[from].name == name then from else ModuleIndex(modules, name, from + 1)
  }

  function NewModule(name: Text): Module { Module(Copy(name, MAX_NAME), [], [], 0, 0, 0, 0, 0, 0, 0, 0, 0, 0) }

  /** The tables with a module of this name, and its index; none when the module table is full. */
  function GetModule(t: Tables, name: Text): (r: (Tables, Option<nat>))
    ensures r.1.Some? ==> r.1.value < |r.0.modules|
  {
    var index := ModuleIndex(t.modules, name);
    if index < |t.modules| then (t, Some(index))
    else if |t.modules| >= MAX_MODULES then (t, None)
    else (t.(modules := t.modules + [NewModule(name)]), Some(index))
  }

  // One record appended and counted in module `i`, which is the module it names.

  function RecordFile(t: Tables, i: nat, file: SourceFile): Tables
    requires i < |t.modules|
  {
    var m := t.modules[i];
    var headerPath := if m.headerPath == [] then file.path else m.headerPath;
    var sourcePath := if m.sourcePath == [] then file.path else m.sourcePath;
    var m' := if file.isHeader then m.(headerCount := m.headerCount + 1, headerPath := headerPath)
              else m.(sourceCount := m.sourceCount + 1, sourcePath := sourcePath);
    t.(files := t.files + [file], modules := t.modules[i := m'])
  }

  function RecordInclude(t: Tables, i: nat, inclusion: IncludeRecord): Tables
    requires i < |t.modules|
  {
    var m := t.modules[i];
    var m' := if inclusion.isLocal then m.(localIncludeCount := m.localIncludeCount + 1)
              else m.(externalIncludeCount := m.externalIncludeCount + 1);
    t.(includes := t.includes + [inclusion], modules := t.modules[i := m'])
  }

  function RecordFunction(t: Tables, i: nat, f: FunctionRecord): Tables
    requires i < |t.modules|
  {
    var m := t.modules[i];
    var m' := if f.isHeaderDeclaration then m.(headerDeclarationCount := m.headerDeclarationCount + 1)
              else if f.isStatic
              then m.(functionCount := m.functionCount + 1, staticFunctionCount := m.staticFunctionCount + 1)
              else m.(functionCount := m.functionCount + 1, publicFunctionCount := m.publicFunctionCount + 1);
    t.(functions := t.functions + [f], modules := t.modules[i := m'])
  }

  function RecordMacro(t: Tables, i: nat, r: NameRecord): Tables
    requires i < |t.modules|
  {
    t.(macros := t.macros + [r], modules := t.modules[i := t.modules[i].(macroCount := t.modules[i].macroCount + 1)])
  }

  function RecordType(t: Tables, i: nat, r: NameRecord): Tables
    requires i < |t.modules|
  {
    t.(types := t.types + [r], modules := t.modules[i := t.modules[i].(typeCount := t.modules[i].typeCount + 1)])
  }

  // The operations.  An error or a duplicate leaves the tables alone, except that a type asks for its module first.

  function AddFile(t: Tables, path: Text, moduleName: Text, isHeader: bool): Outcome {
    if |t.files| >= MAX_FILES then Outcome(t, true)
    else
      var (t', index) := GetModule(t, moduleName);
      if index == None then Outcome(t, true)
      else
        var file := SourceFile(Copy(path, PATH_LEN), Copy(moduleName, MAX_NAME), isHeader);
        Outcome(RecordFile(t', index.value, file), false)
  }

  /** `target` is the module that the include names. */
  function AddInclude(t: Tables, file: SourceFile, target: Text, resolved: Text, line: nat, isLocal: bool): Outcome {
    if |t.includes| >= MAX_INCLUDES then Outcome(t, true)
    else
      var (t', index) := GetModule(t, file.moduleName);
      if index == None then Outcome(t, true)
      else
        var inclusion := IncludeRecord(
          file.moduleName, Copy(target, MAX_NAME), file.path, Copy(resolved, PATH_LEN), line, isLocal);
        Outcome(RecordInclude(t', index.value, inclusion), false)
  }

  predicate HasFunctionAt(functions: seq<FunctionRecord>, name: Text, path: Text, line: nat) {
    exists f :: f in functions && SameSite(f.name, f.path, f.line, name, path, line)
  }

  predicate HasNameAt(records: seq<NameRecord>, name: Text, path: Text, line: nat) {
    exists r :: r in records && SameSite(r.name, r.path, r.line, name, path, line)
  }

  function AddFunction(
    t: Tables, file: SourceFile, name: Text, usr: Option<Text>, line: nat, isStatic: bool,
    isHeaderDeclaration: bool): Outcome
  {
    if |t.functions| >= MAX_FUNCTIONS || usr == None || |usr.value| >= MAX_NAME then Outcome(t, true)
    else if HasFunctionAt(t.functions, name, file.path, line) then Outcome(t, false)
    else
      var (t', index) := GetModule(t, file.moduleName);
      if index == None then Outcome(t, true)
      else
        var f := FunctionRecord(
          Copy(name, MAX_NAME), usr.value, file.moduleName, file.path, line, isStatic, isHeaderDeclaration);
        Outcome(RecordFunction(t', index.value, f), false)
  }

  function AddMacro(t: Tables, file: SourceFile, name: Text, line: nat): Outcome {
    if |t.macros| >= MAX_MACROS then Outcome(t, true)
    else if HasNameAt(t.macros, name, file.path, line) then Outcome(t, false)
    else
      var (t', index) := GetModule(t, file.moduleName);
      if index == None then Outcome(t, true)
      else
        var r := NameRecord(Copy(name, MAX_NAME), file.moduleName, file.path, line, file.isHeader);
        Outcome(RecordMacro(t', index.value, r), false)
  }

  function AddType(t: Tables, file: SourceFile, name: Text, line: nat): Outcome {
    if |t.types| >= MAX_TYPES then Outcome(t, true)
    else
      var (t', index) := GetModule(t, file.moduleName);
      if index == None then Outcome(t, true)
      else if HasNameAt(t.types, name, file.path, line) then Outcome(t', false)
      else
        var r := NameRecord(Copy(name, MAX_NAME), file.moduleName, file.path, line, file.isHeader);
        Outcome(RecordType(t', index.value, r), false)
  }

  // Every operation keeps the map summarized, whatever the length of the declared names.

  lemma GetModuleKeeps(t: Tables, name: Text)
    requires IsSummarized(t) && |name| < MAX_NAME
    ensures var (t', index) := GetModule(t, name);
      && IsSummarized(t') && t' == t.(modules := t'.modules)
      && (index.Some? ==> t'.modules[index.value].name == name)
  {
    var (t', index) := GetModule(t, name);
    if t' != t {
      NewModuleIsCounted(t, name);
      forall other | HasModule(t.modules, other)
        ensures HasModule(t'.modules, other)
      {
        assert t'.modules[ModuleIndex(t.modules, other)].name == other;
      }
    }
  }

  lemma NewModuleIsCounted(t: Tables, name: Text)
    requires RecordsHaveModules(t) && !HasModule(t.modules, name) && |name| < MAX_NAME
    ensures IsCounted(t, NewModule(name))
  {
    CountNone(t.files, FileOf(name, false));
    CountNone(t.files, FileOf(name, true));
    FirstPathNone(t.files, FileOf(name, false));
    FirstPathNone(t.files, FileOf(name, true));
    CountNone(t.functions, DefinitionOf(name));
    CountNone(t.functions, LinkageOf(name, false));
    CountNone(t.functions, LinkageOf(name, true));
    CountNone(t.functions, DeclarationOf(name));
    CountNone(t.includes, IncludeOf(name, true));
    CountNone(t.includes, IncludeOf(name, false));
    CountNone(t.macros, NameOf(name));
    CountNone(t.types, NameOf(name));
  }

  /** What an operation that appended one record must still show: every module is counted and the record has one. */
  lemma AppendKeeps(t: Tables, i: nat, after: Tables)
    requires IsSummarized(t) && i < |t.modules| && |after.modules| == |t.modules|
    requires forall j :: 0 <= j < |t.modules| ==>
      after.modules[j].name == t.modules[j].name && IsCounted(after, after.modules[j])
    requires forall f :: f in after.files ==> f in t.files || f.moduleName == t.modules[i].name
    requires forall f :: f in after.functions ==> f in t.functions || f.moduleName == t.modules[i].name
    requires forall f :: f in after.includes ==> f in t.includes || f.fromModule == t.modules[i].name
    requires forall r :: r in after.macros ==> r in t.macros || r.moduleName == t.modules[i].name
    requires forall r :: r in after.types ==> r in t.types || r.moduleName == t.modules[i].name
    ensures IsSummarized(after)
  {
    hide IsCounted;
    forall name
      ensures HasModule(t.modules, name) <==> HasModule(after.modules, name)
    {
      SameIndex(t.modules, after.modules, name, 0);
    }
    assert HasModule(t.modules, t.modules[i].name);
    hide ModuleIndex, HasModule;
    forall k | k in after.modules
      ensures IsCounted(after, k)
    {
      var j :| 0 <= j < |after.modules| && after.modules[j] == k;
    }
  }

  lemma {:induction false} SameIndex(left: seq<Module>, right: seq<Module>, name: Text, from: nat)
    requires |left| == |right| && forall j :: 0 <= j < |left| ==> left[j].name == right[j].name
    requires from <= |left|
    ensures ModuleIndex(left, name, from) == ModuleIndex(right, name, from)
    decreases |left| - from
  {
    if from < |left| {
      SameIndex(left, right, name, from + 1);
    }
  }

  // One more record: the counters of its module grow by what it counts for, all others stay.

  lemma FilesAfter(files: seq<SourceFile>, file: SourceFile, m: Module, m': Module)
    requires CountsFiles(files, m) && m'.name == m.name
    requires m'.sourceCount == m.sourceCount + if m.name == file.moduleName && !file.isHeader then 1 else 0
    requires m'.headerCount == m.headerCount + if m.name == file.moduleName && file.isHeader then 1 else 0
    requires m'.sourcePath ==
      if m.sourcePath == [] && m.name == file.moduleName && !file.isHeader then file.path else m.sourcePath
    requires m'.headerPath ==
      if m.headerPath == [] && m.name == file.moduleName && file.isHeader then file.path else m.headerPath
    ensures CountsFiles(files + [file], m')
  {
    FirstPathAppend(files, file, FileOf(m.name, false));
    FirstPathAppend(files, file, FileOf(m.name, true));
    CountAppend(files, file, FileOf(m.name, false));
    CountAppend(files, file, FileOf(m.name, true));
  }

  lemma FunctionsAfter(functions: seq<FunctionRecord>, f: FunctionRecord, m: Module, m': Module)
    requires CountsFunctions(functions, m) && m'.name == m.name
    requires m'.functionCount == m.functionCount + if m.name == f.moduleName && !f.isHeaderDeclaration then 1 else 0
    requires m'.publicFunctionCount == m.publicFunctionCount +
      if m.name == f.moduleName && !f.isHeaderDeclaration && !f.isStatic then 1 else 0
    requires m'.staticFunctionCount == m.staticFunctionCount +
      if m.name == f.moduleName && !f.isHeaderDeclaration && f.isStatic then 1 else 0
    requires m'.headerDeclarationCount == m.headerDeclarationCount +
      if m.name == f.moduleName && f.isHeaderDeclaration then 1 else 0
    ensures CountsFunctions(functions + [f], m')
  {
    CountAppend(functions, f, DefinitionOf(m.name));
    CountAppend(functions, f, LinkageOf(m.name, false));
    CountAppend(functions, f, LinkageOf(m.name, true));
    CountAppend(functions, f, DeclarationOf(m.name));
  }

  lemma IncludesAfter(includes: seq<IncludeRecord>, i: IncludeRecord, m: Module, m': Module)
    requires CountsIncludes(includes, m) && m'.name == m.name
    requires m'.localIncludeCount == m.localIncludeCount + if m.name == i.fromModule && i.isLocal then 1 else 0
    requires m'.externalIncludeCount == m.externalIncludeCount + if m.name == i.fromModule && !i.isLocal then 1 else 0
    ensures CountsIncludes(includes + [i], m')
  {
    CountAppend(includes, i, IncludeOf(m.name, true));
    CountAppend(includes, i, IncludeOf(m.name, false));
  }

  lemma NamesAfter(records: seq<NameRecord>, r: NameRecord, name: Text)
    ensures Count(records + [r], NameOf(name)) == Count(records, NameOf(name)) + if name == r.moduleName then 1 else 0
  {
    CountAppend(records, r, NameOf(name));
  }

  lemma RecordFileKeeps(t: Tables, i: nat, file: SourceFile)
    requires IsSummarized(t) && i < |t.modules| && t.modules[i].name == file.moduleName
    ensures IsSummarized(RecordFile(t, i, file))
  {
    hide Count, FirstPath, ModuleIndex, RecordsHaveModules;
    var after := RecordFile(t, i, file);
    forall j | 0 <= j < |t.modules|
      ensures IsCounted(after, after.modules[j])
    {
      assert IsCounted(t, t.modules[j]);
      FilesAfter(t.files, file, t.modules[j], after.modules[j]);
    }
    AppendKeeps(t, i, after);
  }

  lemma RecordIncludeKeeps(t: Tables, i: nat, inclusion: IncludeRecord)
    requires IsSummarized(t) && i < |t.modules| && t.modules[i].name == inclusion.fromModule
    ensures IsSummarized(RecordInclude(t, i, inclusion))
  {
    hide Count, FirstPath, ModuleIndex, RecordsHaveModules;
    var after := RecordInclude(t, i, inclusion);
    forall j | 0 <= j < |t.modules|
      ensures IsCounted(after, after.modules[j])
    {
      assert IsCounted(t, t.modules[j]);
      IncludesAfter(t.includes, inclusion, t.modules[j], after.modules[j]);
    }
    AppendKeeps(t, i, after);
  }

  lemma RecordFunctionKeeps(t: Tables, i: nat, f: FunctionRecord)
    requires IsSummarized(t) && i < |t.modules| && t.modules[i].name == f.moduleName
    ensures IsSummarized(RecordFunction(t, i, f))
  {
    hide Count, FirstPath, ModuleIndex, RecordsHaveModules;
    var after := RecordFunction(t, i, f);
    forall j | 0 <= j < |t.modules|
      ensures IsCounted(after, after.modules[j])
    {
      assert IsCounted(t, t.modules[j]);
      FunctionsAfter(t.functions, f, t.modules[j], after.modules[j]);
    }
    AppendKeeps(t, i, after);
  }

  lemma RecordMacroKeeps(t: Tables, i: nat, r: NameRecord)
    requires IsSummarized(t) && i < |t.modules| && t.modules[i].name == r.moduleName
    ensures IsSummarized(RecordMacro(t, i, r))
  {
    hide Count, FirstPath, ModuleIndex, RecordsHaveModules;
    var after := RecordMacro(t, i, r);
    forall j | 0 <= j < |t.modules|
      ensures IsCounted(after, after.modules[j])
    {
      assert IsCounted(t, t.modules[j]);
      NamesAfter(t.macros, r, t.modules[j].name);
    }
    AppendKeeps(t, i, after);
  }

  lemma RecordTypeKeeps(t: Tables, i: nat, r: NameRecord)
    requires IsSummarized(t) && i < |t.modules| && t.modules[i].name == r.moduleName
    ensures IsSummarized(RecordType(t, i, r))
  {
    hide Count, FirstPath, ModuleIndex, RecordsHaveModules;
    var after := RecordType(t, i, r);
    forall j | 0 <= j < |t.modules|
      ensures IsCounted(after, after.modules[j])
    {
      assert IsCounted(t, t.modules[j]);
      NamesAfter(t.types, r, t.modules[j].name);
    }
    AppendKeeps(t, i, after);
  }

  lemma AddFileKeeps(t: Tables, path: Text, moduleName: Text, isHeader: bool)
    requires IsSummarized(t) && |moduleName| < MAX_NAME
    ensures IsSummarized(AddFile(t, path, moduleName, isHeader).tables)
  {
    hide IsSummarized, RecordFile;
    var (t', index) := GetModule(t, moduleName);
    GetModuleKeeps(t, moduleName);
    if index.Some? {
      RecordFileKeeps(t', index.value, SourceFile(Copy(path, PATH_LEN), Copy(moduleName, MAX_NAME), isHeader));
    }
  }

  lemma AddIncludeKeeps(t: Tables, file: SourceFile, target: Text, resolved: Text, line: nat, isLocal: bool)
    requires IsSummarized(t) && |file.moduleName| < MAX_NAME
    ensures IsSummarized(AddInclude(t, file, target, resolved, line, isLocal).tables)
  {
    hide IsSummarized, RecordInclude;
    var (t', index) := GetModule(t, file.moduleName);
    GetModuleKeeps(t, file.moduleName);
    if index.Some? {
      var inclusion := IncludeRecord(
        file.moduleName, Copy(target, MAX_NAME), file.path, Copy(resolved, PATH_LEN), line, isLocal);
      RecordIncludeKeeps(t', index.value, inclusion);
    }
  }

  lemma AddFunctionKeeps(
    t: Tables, file: SourceFile, name: Text, usr: Option<Text>, line: nat, isStatic: bool, isHeaderDeclaration: bool)
    requires IsSummarized(t) && |file.moduleName| < MAX_NAME
    ensures IsSummarized(AddFunction(t, file, name, usr, line, isStatic, isHeaderDeclaration).tables)
  {
    hide IsSummarized, RecordFunction, HasFunctionAt, Copy;
    var (t', index) := GetModule(t, file.moduleName);
    GetModuleKeeps(t, file.moduleName);
    if index.Some? && usr.Some? {
      var f := FunctionRecord(
        Copy(name, MAX_NAME), usr.value, file.moduleName, file.path, line, isStatic, isHeaderDeclaration);
      RecordFunctionKeeps(t', index.value, f);
    }
  }

  lemma AddMacroKeeps(t: Tables, file: SourceFile, name: Text, line: nat)
    requires IsSummarized(t) && |file.moduleName| < MAX_NAME
    ensures IsSummarized(AddMacro(t, file, name, line).tables)
  {
    hide IsSummarized, RecordMacro, HasNameAt, Copy;
    var (t', index) := GetModule(t, file.moduleName);
    GetModuleKeeps(t, file.moduleName);
    if index.Some? {
      var r := NameRecord(Copy(name, MAX_NAME), file.moduleName, file.path, line, file.isHeader);
      RecordMacroKeeps(t', index.value, r);
    }
  }

  lemma AddTypeKeeps(t: Tables, file: SourceFile, name: Text, line: nat)
    requires IsSummarized(t) && |file.moduleName| < MAX_NAME
    ensures IsSummarized(AddType(t, file, name, line).tables)
  {
    hide IsSummarized, RecordType, HasNameAt, Copy;
    var (t', index) := GetModule(t, file.moduleName);
    GetModuleKeeps(t, file.moduleName);
    if index.Some? {
      var r := NameRecord(Copy(name, MAX_NAME), file.moduleName, file.path, line, file.isHeader);
      RecordTypeKeeps(t', index.value, r);
    }
  }

  // When sites stay distinct.

  /** One more record keeps the sites distinct exactly when its site, as it is stored, is not taken. */
  lemma AppendFunctionDistinct(functions: seq<FunctionRecord>, f: FunctionRecord)
    requires DistinctFunctions(functions)
    ensures DistinctFunctions(functions + [f]) <==> !HasFunctionAt(functions, f.name, f.path, f.line)
  {
    var after := functions + [f];
    assert after[|functions|] == f && forall i :: 0 <= i < |functions| ==> after[i] == functions[i];
    if HasFunctionAt(functions, f.name, f.path, f.line) {
      var i :| 0 <= i < |functions| && SameFunctionSite(functions[i], f);
      assert SameFunctionSite(after[i], after[|functions|]);
    } else {
      forall i | 0 <= i < |functions|
        ensures !SameFunctionSite(functions[i], f)
      {
        assert functions[i] in functions;
      }
    }
  }

  lemma AppendNameDistinct(records: seq<NameRecord>, r: NameRecord)
    requires DistinctNames(records)
    ensures DistinctNames(records + [r]) <==> !HasNameAt(records, r.name, r.path, r.line)
  {
    var after := records + [r];
    assert after[|records|] == r && forall i :: 0 <= i < |records| ==> after[i] == records[i];
    if HasNameAt(records, r.name, r.path, r.line) {
      var i :| 0 <= i < |records| && SameNameSite(records[i], r);
      assert SameNameSite(after[i], after[|records|]);
    } else {
      forall i | 0 <= i < |records|
        ensures !SameNameSite(records[i], r)
      {
        assert records[i] in records;
      }
    }
  }

  /** A function keeps the sites distinct exactly when it is not recorded or the site it is stored under is free. */
  lemma NewFunctionDistinctIff(
    t: Tables, file: SourceFile, name: Text, usr: Option<Text>, line: nat, isStatic: bool, isHeaderDeclaration: bool)
    requires DistinctFunctions(t.functions)
    ensures var after := AddFunction(t, file, name, usr, line, isStatic, isHeaderDeclaration).tables.functions;
      DistinctFunctions(after) <==>
        |after| == |t.functions| || !HasFunctionAt(t.functions, Copy(name, MAX_NAME), file.path, line)
  {
    hide DistinctFunctions, HasFunctionAt, Copy;
    if usr.Some? {
      var f := FunctionRecord(
        Copy(name, MAX_NAME), usr.value, file.moduleName, file.path, line, isStatic, isHeaderDeclaration);
      AppendFunctionDistinct(t.functions, f);
    }
  }

  lemma NewMacroDistinctIff(t: Tables, file: SourceFile, name: Text, line: nat)
    requires DistinctNames(t.macros)
    ensures var after := AddMacro(t, file, name, line).tables.macros;
      DistinctNames(after) <==> |after| == |t.macros| || !HasNameAt(t.macros, Copy(name, MAX_NAME), file.path, line)
  {
    hide DistinctNames, HasNameAt, Copy;
    AppendNameDistinct(t.macros, NameRecord(Copy(name, MAX_NAME), file.moduleName, file.path, line, file.isHeader));
  }

  lemma NewTypeDistinctIff(t: Tables, file: SourceFile, name: Text, line: nat)
    requires DistinctNames(t.types)
    ensures var after := AddType(t, file, name, line).tables.types;
      DistinctNames(after) <==> |after| == |t.types| || !HasNameAt(t.types, Copy(name, MAX_NAME), file.path, line)
  {
    hide DistinctNames, HasNameAt, Copy;
    AppendNameDistinct(t.types, NameRecord(Copy(name, MAX_NAME), file.moduleName, file.path, line, file.isHeader));
  }

  // Whole runs.

  datatype Operation =
    | File(path: Text, moduleName: Text, isHeader: bool)
    | Include(file: SourceFile, target: Text, resolved: Text, line: nat, isLocal: bool)
    | Function(file: SourceFile, name: Text, usr: Option<Text>, line: nat, isStatic: bool, isHeaderDeclaration: bool)
    | Macro(file: SourceFile, name: Text, line: nat)
    | Type(file: SourceFile, name: Text, line: nat)

  /** The module name fits its buffer, as it does in every `struct source_file`. */
  predicate ModuleFits(op: Operation) {
    |if op.File? then op.moduleName else op.file.moduleName| < MAX_NAME
  }

  predicate IsDeclaration(op: Operation) { op.Function? || op.Macro? || op.Type? }

  /** The declared name, which comes from the source text, fits its buffer. */
  predicate NameFits(op: Operation) { IsDeclaration(op) ==> |op.name| < MAX_NAME }

  function Apply(t: Tables, op: Operation): Outcome {
    match op
    case File(path, moduleName, isHeader) => AddFile(t, path, moduleName, isHeader)
    case Include(file, target, resolved, line, isLocal) => AddInclude(t, file, target, resolved, line, isLocal)
    case Function(file, name, usr, line, isStatic, isHeaderDeclaration) =>
      AddFunction(t, file, name, usr, line, isStatic, isHeaderDeclaration)
    case Macro(file, name, line) => AddMacro(t, file, name, line)
    case Type(file, name, line) => AddType(t, file, name, line)
  }

  lemma ApplyKeeps(t: Tables, op: Operation)
    requires IsSummarized(t) && ModuleFits(op)
    ensures IsSummarized(Apply(t, op).tables)
  {
    hide IsSummarized, AddFile, AddInclude, AddFunction, AddMacro, AddType;
    match op
    case File(path, moduleName, isHeader) => AddFileKeeps(t, path, moduleName, isHeader);
    case Include(file, target, resolved, line, isLocal) => AddIncludeKeeps(t, file, target, resolved, line, isLocal);
    case Function(file, name, usr, line, isStatic, isHeaderDeclaration) =>
      AddFunctionKeeps(t, file, name, usr, line, isStatic, isHeaderDeclaration);
    case Macro(file, name, line) => AddMacroKeeps(t, file, name, line);
    case Type(file, name, line) => AddTypeKeeps(t, file, name, line);
  }

  lemma ApplyKeepsSites(t: Tables, op: Operation)
    requires DistinctSites(t) && NameFits(op)
    ensures DistinctSites(Apply(t, op).tables)
  {
    hide DistinctFunctions, DistinctNames, HasFunctionAt, HasNameAt, ModuleIndex;
    match op
    case File(_, _, _) =>
    case Include(_, _, _, _, _) =>
    case Function(file, name, usr, line, isStatic, isHeaderDeclaration) =>
      NewFunctionDistinctIff(t, file, name, usr, line, isStatic, isHeaderDeclaration);
    case Macro(file, name, line) => NewMacroDistinctIff(t, file, name, line);
    case Type(file, name, line) => NewTypeDistinctIff(t, file, name, line);
  }

  function Run(ops: seq<Operation>): Tables {
    if ops == [] then NO_TABLES else Apply(Run(ops[..|ops| - 1]), ops[|ops| - 1]).tables
  }

  /** After any run every counter is right, whatever the length of the declared names. */
  lemma {:induction false} RunIsSummarized(ops: seq<Operation>)
    requires forall op :: op in ops ==> ModuleFits(op)
    ensures IsSummarized(Run(ops))
  {
    if ops != [] {
      RunIsSummarized(ops[..|ops| - 1]);
      ApplyKeeps(Run(ops[..|ops| - 1]), ops[|ops| - 1]);
    }
  }

  /** After any run of declarations whose names fit, nothing is recorded twice. */
  lemma {:induction false} RunKeepsSites(ops: seq<Operation>)
    requires forall op :: op in ops ==> NameFits(op)
    ensures DistinctSites(Run(ops))
  {
    if ops != [] {
      RunKeepsSites(ops[..|ops| - 1]);
      ApplyKeepsSites(Run(ops[..|ops| - 1]), ops[|ops| - 1]);
    }
  }

  /** What truncation would cost a module: a new one keeps the names distinct exactly when its truncated name is not
      taken. */
  lemma NewModuleDistinctIff(t: Tables, name: Text)
    requires DistinctModules(t.modules) && !HasModule(t.modules, name) && |t.modules| < MAX_MODULES
    ensures DistinctModules(GetModule(t, name).0.modules) <==> !HasModule(t.modules, Copy(name, MAX_NAME))
  {
    var modules := GetModule(t, name).0.modules;
    var i := ModuleIndex(t.modules, Copy(name, MAX_NAME));
    assert modules == t.modules + [NewModule(name)];
    if i < |t.modules| {
      assert modules[i].name == modules[|t.modules|].name;
    }
  }
}
