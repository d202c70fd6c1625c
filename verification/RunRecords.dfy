/** What the records and counters of a project map say, in terms of the fields of the operations that made it. */
module RunRecords {
  import opened CStrings
  import opened ModuleMap

  // What a record says of its operation.

  /** As much of the text as the buffer takes. */
  predicate IsCut(copied: Text, text: Text, size: nat) {
    copied <= text && if |text| < size then |copied| == |text| else |copied| + 1 == size
  }

  predicate FileSays(op: Operation, f: SourceFile) {
    && op.File? && IsCut(f.path, op.path, PATH_LEN) && IsCut(f.moduleName, op.moduleName, MAX_NAME)
    && f.isHeader == op.isHeader
  }

  predicate IncludeSays(op: Operation, i: IncludeRecord) {
    && op.Include? && i.fromModule == op.file.moduleName && i.path == op.file.path
    && IsCut(i.target, op.target, MAX_NAME) && IsCut(i.resolved, op.resolved, PATH_LEN)
    && i.line == op.line && i.isLocal == op.isLocal
  }

  predicate FunctionSays(op: Operation, f: FunctionRecord) {
    && op.Function? && IsCut(f.name, op.name, MAX_NAME) && op.usr == Some(f.usr)
    && f.moduleName == op.file.moduleName && f.path == op.file.path && f.line == op.line
    && f.isStatic == op.isStatic && f.isHeaderDeclaration == op.isHeaderDeclaration
  }

  predicate NameSays(file: SourceFile, name: Text, line: nat, r: NameRecord) {
    && IsCut(r.name, name, MAX_NAME)
    && r.moduleName == file.moduleName && r.path == file.path && r.line == line && r.isHeader == file.isHeader
  }

  predicate MacroSays(op: Operation, r: NameRecord) { op.Macro? && NameSays(op.file, op.name, op.line, r) }

  predicate TypeSays(op: Operation, r: NameRecord) { op.Type? && NameSays(op.file, op.name, op.line, r) }

  // Which operations are recorded.

  predicate CanName(t: Tables, name: Text) {
    |t.modules| < MAX_MODULES || exists i :: 0 <= i < |t.modules| && t.modules[i].name == name
  }

  predicate IsFreeOfNames(records: seq<NameRecord>, name: Text, path: Text, line: nat) {
    forall i :: 0 <= i < |records| && records[i].name == name && records[i].path == path ==> records[i].line != line
  }

  /** There is room, an identity that fits, and a module, and no record of the name at the place. */
  predicate IsAccepted(t: Tables, op: Operation) {
    match op
    case File(_, moduleName, _) => |t.files| < MAX_FILES && CanName(t, moduleName)
    case Include(file, _, _, _, _) => |t.includes| < MAX_INCLUDES && CanName(t, file.moduleName)
    case Function(file, name, usr, line, _, _) =>
      && |t.functions| < MAX_FUNCTIONS && usr.Some? && |usr.value| < MAX_NAME && CanName(t, file.moduleName)
      && forall i :: 0 <= i < |t.functions| && t.functions[i].name == name && t.functions[i].path == file.path ==>
          t.functions[i].line != line
    case Macro(file, name, line) =>
      |t.macros| < MAX_MACROS && CanName(t, file.moduleName) && IsFreeOfNames(t.macros, name, file.path, line)
    case Type(file, name, line) =>
      |t.types| < MAX_TYPES && CanName(t, file.moduleName) && IsFreeOfNames(t.types, name, file.path, line)
  }

  /** The operation appends one record that says what it says, and no other. */
  ghost predicate Adds(t: Tables, after: Tables, op: Operation) {
    match op
    case File(_, _, _) => exists f :: FileSays(op, f) && after == t.(modules := after.modules, files := t.files + [f])
    case Include(_, _, _, _, _) =>
      exists i :: IncludeSays(op, i) && after == t.(modules := after.modules, includes := t.includes + [i])
    case Function(_, _, _, _, _, _) =>
      exists f :: FunctionSays(op, f) && after == t.(modules := after.modules, functions := t.functions + [f])
    case Macro(_, _, _) =>
      exists r :: MacroSays(op, r) && after == t.(modules := after.modules, macros := t.macros + [r])
    case Type(_, _, _) =>
      exists r :: TypeSays(op, r) && after == t.(modules := after.modules, types := t.types + [r])
  }

  lemma CanNameIff(t: Tables, name: Text)
    ensures GetModule(t, name).1.Some? <==> CanName(t, name)
    ensures GetModule(t, name).0 == t.(modules := GetModule(t, name).0.modules)
  {
    hide NewModule;
  }

  /** An accepted operation appends its record; any other appends nothing. */
  lemma ApplyAdds(t: Tables, op: Operation)
    ensures var after := Apply(t, op).tables;
      if IsAccepted(t, op) then Adds(t, after, op) else after == t.(modules := after.modules)
  {
    hide GetModule, CanName;
    match op
    case File(path, moduleName, isHeader) =>
      CanNameIff(t, moduleName);
      assert FileSays(op, SourceFile(Copy(path, PATH_LEN), Copy(moduleName, MAX_NAME), isHeader));
    case Include(file, target, resolved, line, isLocal) =>
      CanNameIff(t, file.moduleName);
      assert IncludeSays(op, IncludeRecord(
        file.moduleName, Copy(target, MAX_NAME), file.path, Copy(resolved, PATH_LEN), line, isLocal));
    case Function(file, name, usr, line, isStatic, isHeaderDeclaration) =>
      FunctionAdds(t, op);
    case Macro(file, name, line) =>
      CanNameIff(t, file.moduleName);
      assert MacroSays(op, NameRecord(Copy(name, MAX_NAME), file.moduleName, file.path, line, file.isHeader));
    case Type(file, name, line) =>
      TypeAdds(t, op);
  }

  lemma FunctionAdds(t: Tables, op: Operation)
    requires op.Function?
    ensures var after := Apply(t, op).tables;
      if IsAccepted(t, op) then Adds(t, after, op) else after == t.(modules := after.modules)
  {
    hide GetModule, CanName, Copy;
    CanNameIff(t, op.file.moduleName);
    if HasFunctionAt(t.functions, op.name, op.file.path, op.line) {
      var i :| 0 <= i < |t.functions| &&
        SameSite(t.functions[i].name, t.functions[i].path, t.functions[i].line, op.name, op.file.path, op.line);
      assert !IsAccepted(t, op);
    } else if IsAccepted(t, op) {
      var f := FunctionRecord(
        Copy(op.name, MAX_NAME), op.usr.value, op.file.moduleName, op.file.path, op.line, op.isStatic,
        op.isHeaderDeclaration);
      CopyIsCut(op.name, MAX_NAME);
      assert FunctionSays(op, f);
    }
  }

  lemma TypeAdds(t: Tables, op: Operation)
    requires op.Type?
    ensures var after := Apply(t, op).tables;
      if IsAccepted(t, op) then Adds(t, after, op) else after == t.(modules := after.modules)
  {
    hide CanName, Copy;
    CanNameIff(t, op.file.moduleName);
    CopyIsCut(op.name, MAX_NAME);
    var r := NameRecord(Copy(op.name, MAX_NAME), op.file.moduleName, op.file.path, op.line, op.file.isHeader);
    assert TypeSays(op, r);
  }

  lemma CopyIsCut(text: Text, size: nat)
    requires size > 0
    ensures IsCut(Copy(text, size), text, size)
  {
  }

  /** What makes the loader stop: no room, an identity that does not fit, or no module, unless the place is recorded
      before its module is asked for. */
  lemma RaisedIff(t: Tables, op: Operation)
    ensures Apply(t, op).raised <==>
      match op
      case File(_, moduleName, _) => |t.files| >= MAX_FILES || !CanName(t, moduleName)
      case Include(file, _, _, _, _) => |t.includes| >= MAX_INCLUDES || !CanName(t, file.moduleName)
      case Function(file, name, usr, line, _, _) =>
        || |t.functions| >= MAX_FUNCTIONS || usr.None? || |usr.value| >= MAX_NAME
        || (!CanName(t, file.moduleName)
            && forall f :: f in t.functions && f.name == name && f.path == file.path ==> f.line != line)
      case Macro(file, name, line) =>
        || |t.macros| >= MAX_MACROS
        || (!CanName(t, file.moduleName)
            && forall r :: r in t.macros && r.name == name && r.path == file.path ==> r.line != line)
      case Type(file, _, _) => |t.types| >= MAX_TYPES || !CanName(t, file.moduleName)
  {
    CanNameIff(t, if op.File? then op.moduleName else op.file.moduleName);
    hide GetModule, CanName, Copy;
  }

  // Whole runs.

  datatype Table = Files | Includes | Functions | Macros | Types

  function TableOf(op: Operation): Table {
    match op
    case File(_, _, _) => Files
    case Include(_, _, _, _, _) => Includes
    case Function(_, _, _, _, _, _) => Functions
    case Macro(_, _, _) => Macros
    case Type(_, _, _) => Types
  }

  /** The operations of a run that are recorded in a table, in their order. */
  function Recorded(ops: seq<Operation>, table: Table): seq<Operation> {
    if ops == [] then []
    else
      var front, last := ops[..|ops| - 1], ops[|ops| - 1];
      Recorded(front, table) + if IsAccepted(Run(front), last) && TableOf(last) == table then [last] else []
  }

  ghost predicate Pairs<T(!new)>(ops: seq<Operation>, records: seq<T>, says: (Operation, T) -> bool) {
    |ops| == |records| && forall i :: 0 <= i < |ops| ==> says(ops[i], records[i])
  }

  /** The tables hold one record for each recorded operation, in this order, that says what the operation says. */
  lemma {:induction false} RunHoldsItsOperations(ops: seq<Operation>)
    ensures Pairs(Recorded(ops, Files), Run(ops).files, FileSays)
    ensures Pairs(Recorded(ops, Includes), Run(ops).includes, IncludeSays)
    ensures Pairs(Recorded(ops, Functions), Run(ops).functions, FunctionSays)
    ensures Pairs(Recorded(ops, Macros), Run(ops).macros, MacroSays)
    ensures Pairs(Recorded(ops, Types), Run(ops).types, TypeSays)
  {
    hide IsAccepted, Apply, FileSays, IncludeSays, FunctionSays, MacroSays, TypeSays;
    if ops != [] {
      var front, last := ops[..|ops| - 1], ops[|ops| - 1];
      RunHoldsItsOperations(front);
      ApplyAdds(Run(front), last);
    }
  }

  lemma {:induction false} RecordedIff(ops: seq<Operation>, table: Table, op: Operation)
    ensures op in Recorded(ops, table) <==>
      exists k :: 0 <= k < |ops| && ops[k] == op && TableOf(op) == table && IsAccepted(Run(ops[..k]), op)
  {
    hide IsAccepted, Run, TableOf;
    if ops != [] {
      var n := |ops| - 1;
      RecordedIff(ops[..n], table, op);
      assert forall k :: 0 <= k < n ==> ops[..n][k] == ops[k] && ops[..n][..k] == ops[..k];
      assert ops[..n] == ops[..|ops| - 1];
    }
  }

  // What the counters say.

  lemma {:induction false} CountIsNumber<T>(records: seq<T>, matches: T -> bool, indices: set<int>)
    requires forall i {:trigger i in indices} :: i in indices <==> 0 <= i < |records| && matches(records[i])
    ensures Count(records, matches) == |indices|
  {
    if records == [] {
      assert indices == {};
    } else {
      var n := |records| - 1;
      var front, before := records[..n], indices - {n};
      assert forall i :: 0 <= i < n ==> front[i] == records[i];
      CountIsNumber(front, matches, before);
      assert indices == if n in indices then before + {n} else before;
    }
  }

  function FilesOf(files: seq<SourceFile>, name: Text, isHeader: bool): set<int> {
    set i | 0 <= i < |files| && files[i].moduleName == name && files[i].isHeader == isHeader
  }

  function DeclarationsIn(functions: seq<FunctionRecord>, name: Text): set<int> {
    set i | 0 <= i < |functions| && functions[i].moduleName == name && functions[i].isHeaderDeclaration
  }

  function StaticsOf(functions: seq<FunctionRecord>, name: Text): set<int> {
    set i | 0 <= i < |functions| && functions[i].moduleName == name && functions[i].isStatic
  }

  function PublicsOf(functions: seq<FunctionRecord>, name: Text): set<int> {
    set i | 0 <= i < |functions| && functions[i].moduleName == name && !functions[i].isStatic
  }

  function LocalsOf(includes: seq<IncludeRecord>, name: Text): set<int> {
    set i | 0 <= i < |includes| && includes[i].fromModule == name && includes[i].isLocal
  }

  function ExternalsOf(includes: seq<IncludeRecord>, name: Text): set<int> {
    set i | 0 <= i < |includes| && includes[i].fromModule == name && !includes[i].isLocal
  }

  function NamesOf(records: seq<NameRecord>, name: Text): set<int> {
    set i | 0 <= i < |records| && records[i].moduleName == name
  }

  /** The first path of the files that is not empty. */
  ghost predicate IsFirstPath(path: Text, files: seq<SourceFile>, name: Text, isHeader: bool) {
    if path == [] then forall i :: i in FilesOf(files, name, isHeader) ==> files[i].path == []
    else
      exists i :: i in FilesOf(files, name, isHeader) && files[i].path == path
        && forall j :: j in FilesOf(files, name, isHeader) && j < i ==> files[j].path == []
  }

  lemma {:induction false} FirstPathIs(files: seq<SourceFile>, name: Text, isHeader: bool)
    ensures IsFirstPath(FirstPath(files, FileOf(name, isHeader)), files, name, isHeader)
  {
    if files != [] {
      FirstPathIs(files[..|files| - 1], name, isHeader);
    }
  }

  ghost predicate NumbersFiles(files: seq<SourceFile>, m: Module) {
    && m.headerCount == |FilesOf(files, m.name, true)| && m.sourceCount == |FilesOf(files, m.name, false)|
    && IsFirstPath(m.headerPath, files, m.name, true) && IsFirstPath(m.sourcePath, files, m.name, false)
  }

  ghost predicate NumbersFunctions(functions: seq<FunctionRecord>, m: Module) {
    && m.headerDeclarationCount == |DeclarationsIn(functions, m.name)|
    && m.publicFunctionCount == |PublicsOf(functions, m.name) - DeclarationsIn(functions, m.name)|
    && m.staticFunctionCount == |StaticsOf(functions, m.name) - DeclarationsIn(functions, m.name)|
    && m.functionCount == m.publicFunctionCount + m.staticFunctionCount
  }

  lemma FilesAreNumbered(files: seq<SourceFile>, m: Module)
    requires CountsFiles(files, m)
    ensures NumbersFiles(files, m)
  {
    hide Count, FirstPath, IsFirstPath;
    CountIsNumber(files, FileOf(m.name, true), FilesOf(files, m.name, true));
    CountIsNumber(files, FileOf(m.name, false), FilesOf(files, m.name, false));
    FirstPathIs(files, m.name, true);
    FirstPathIs(files, m.name, false);
  }

  lemma FunctionsAreNumbered(functions: seq<FunctionRecord>, m: Module)
    requires CountsFunctions(functions, m)
    ensures NumbersFunctions(functions, m)
  {
    hide Count;
    var declarations := DeclarationsIn(functions, m.name);
    CountIsNumber(functions, DeclarationOf(m.name), declarations);
    CountIsNumber(functions, LinkageOf(m.name, false), PublicsOf(functions, m.name) - declarations);
    CountIsNumber(functions, LinkageOf(m.name, true), StaticsOf(functions, m.name) - declarations);
  }

  /** In any run whose module names fit, every module counts its own records. */
  lemma CountersTell(ops: seq<Operation>, m: Module)
    requires (forall op :: op in ops ==> ModuleFits(op)) && m in Run(ops).modules
    ensures var t := Run(ops);
      && NumbersFiles(t.files, m) && NumbersFunctions(t.functions, m)
      && m.localIncludeCount == |LocalsOf(t.includes, m.name)|
      && m.externalIncludeCount == |ExternalsOf(t.includes, m.name)|
      && m.macroCount == |NamesOf(t.macros, m.name)| && m.typeCount == |NamesOf(t.types, m.name)|
  {
    RunIsSummarized(ops);
    hide Run, Count, CountsFiles, CountsFunctions, NumbersFiles, NumbersFunctions;
    var t, name := Run(ops), m.name;
    FilesAreNumbered(t.files, m);
    FunctionsAreNumbered(t.functions, m);
    CountIsNumber(t.includes, IncludeOf(name, true), LocalsOf(t.includes, name));
    CountIsNumber(t.includes, IncludeOf(name, false), ExternalsOf(t.includes, name));
    CountIsNumber(t.macros, NameOf(name), NamesOf(t.macros, name));
    CountIsNumber(t.types, NameOf(name), NamesOf(t.types, name));
  }
}
