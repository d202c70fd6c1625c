/** A header is parsed once for every source that includes it: what has been declared before is ignored. */
module Redeclaration {
  import opened CStrings
  import opened ModuleMap

  /** No module of this name is there, and none can be made. */
  predicate LacksModule(modules: seq<Module>, name: Text) {
    |modules| >= MAX_MODULES && !HasModule(modules, name)
  }

  /** The table is full, the identity is bad, or there is no module to record the declaration in. */
  predicate CannotBeRecorded(t: Tables, op: Operation)
    requires IsDeclaration(op)
  {
    LacksModule(t.modules, op.file.moduleName) ||
    match op
    case Function(_, _, usr, _, _, _) => |t.functions| >= MAX_FUNCTIONS || usr == None || |usr.value| >= MAX_NAME
    case Macro(_, _, _) => |t.macros| >= MAX_MACROS
    case Type(_, _, _) => |t.types| >= MAX_TYPES
  }

  /** The declaration's site is recorded already.  A type asks for its module first, which it may make. */
  predicate IsRecorded(t: Tables, op: Operation)
    requires IsDeclaration(op)
  {
    match op
    case Function(file, name, _, line, _, _) => HasFunctionAt(t.functions, name, file.path, line)
    case Macro(file, name, line) => HasNameAt(t.macros, name, file.path, line)
    case Type(file, name, line) =>
      HasModule(t.modules, file.moduleName) && HasNameAt(t.types, name, file.path, line)
  }

  predicate IsIgnored(t: Tables, op: Operation)
    requires IsDeclaration(op)
  {
    CannotBeRecorded(t, op) || IsRecorded(t, op)
  }

  lemma IgnoredIffUnchanged(t: Tables, op: Operation)
    requires IsDeclaration(op)
    ensures Apply(t, op).tables == t <==> IsIgnored(t, op)
  {
    hide HasFunctionAt, HasNameAt, ModuleIndex, NewModule, Copy;
    var after := Apply(t, op).tables;
    if !IsIgnored(t, op) {
      assert |after.functions| > |t.functions| || |after.macros| > |t.macros| || |after.types| > |t.types|
        || |after.modules| > |t.modules|;
    }
  }

  /** Once applied, a declaration whose names fit is ignored. */
  lemma IgnoredAfter(t: Tables, op: Operation)
    requires IsDeclaration(op) && NameFits(op) && ModuleFits(op)
    ensures IsIgnored(Apply(t, op).tables, op)
  {
    hide ModuleIndex;
    var after := Apply(t, op).tables;
    if !IsIgnored(t, op) {
      match op
      case Function(file, name, _, line, _, _) =>
        assert after.functions[|t.functions|] in after.functions;
      case Macro(file, name, line) =>
        assert after.macros[|t.macros|] in after.macros;
      case Type(file, name, line) =>
        TypeIgnoredAfter(t, op);
    }
  }

  lemma TypeIgnoredAfter(t: Tables, op: Operation)
    requires op.Type? && NameFits(op) && ModuleFits(op) && !IsIgnored(t, op)
    ensures IsIgnored(Apply(t, op).tables, op)
  {
    var (t', index) := GetModule(t, op.file.moduleName);
    var after := Apply(t, op).tables;
    assert after.modules[index.value].name == op.file.moduleName;
    if !HasNameAt(t.types, op.name, op.file.path, op.line) {
      assert after.types[|t.types|] in after.types;
    }
  }

  /** Tables only grow, modules keep their places, and a full module table stays as it is. */
  ghost predicate Extends(after: Tables, before: Tables) {
    && before.functions <= after.functions && before.macros <= after.macros && before.types <= after.types
    && |before.modules| <= |after.modules|
    && (forall i :: 0 <= i < |before.modules| ==> after.modules[i].name == before.modules[i].name)
    && (|before.modules| >= MAX_MODULES ==> |after.modules| == |before.modules|)
  }

  lemma GetModuleExtends(t: Tables, name: Text)
    ensures Extends(GetModule(t, name).0, t)
  {
    hide NewModule, ModuleIndex;
  }

  lemma ApplyExtends(t: Tables, op: Operation)
    ensures Extends(Apply(t, op).tables, t)
  {
    hide HasFunctionAt, HasNameAt, Copy, GetModule;
    match op
    case File(_, moduleName, _) => GetModuleExtends(t, moduleName);
    case Include(file, _, _, _, _) => GetModuleExtends(t, file.moduleName);
    case Function(file, _, _, _, _, _) => GetModuleExtends(t, file.moduleName);
    case Macro(file, _, _) => GetModuleExtends(t, file.moduleName);
    case Type(file, _, _) => GetModuleExtends(t, file.moduleName);
  }

  lemma StaysIgnored(before: Tables, after: Tables, op: Operation)
    requires IsDeclaration(op) && Extends(after, before) && IsIgnored(before, op)
    ensures IsIgnored(after, op)
  {
    var name := op.file.moduleName;
    if LacksModule(before.modules, name) {
      SameIndex(before.modules, after.modules, name, 0);
    } else if HasModule(before.modules, name) {
      assert after.modules[ModuleIndex(before.modules, name)].name == name;
    }
    assert forall f :: f in before.functions ==> f in after.functions;
    assert forall r :: r in before.macros ==> r in after.macros;
    assert forall r :: r in before.types ==> r in after.types;
  }

  lemma {:induction false} IgnoredInRun(ops: seq<Operation>, op: Operation)
    requires IsDeclaration(op) && NameFits(op) && ModuleFits(op) && op in ops
    ensures IsIgnored(Run(ops), op)
  {
    hide IsIgnored, Apply, Extends;
    var front, last := ops[..|ops| - 1], ops[|ops| - 1];
    if last == op {
      IgnoredAfter(Run(front), op);
    } else {
      IgnoredInRun(front, op);
      ApplyExtends(Run(front), last);
      StaysIgnored(Run(front), Run(ops), op);
    }
  }

  // Names that do not fit.

  ghost predicate StoredNamesFit(t: Tables) {
    && (forall f :: f in t.functions ==> |f.name| < MAX_NAME)
    && (forall r :: r in t.macros ==> |r.name| < MAX_NAME)
    && (forall r :: r in t.types ==> |r.name| < MAX_NAME)
  }

  lemma ApplyStoresShortNames(t: Tables, op: Operation)
    requires StoredNamesFit(t)
    ensures StoredNamesFit(Apply(t, op).tables)
  {
    hide HasFunctionAt, HasNameAt, ModuleIndex, NewModule;
  }

  lemma {:induction false} RunStoresShortNames(ops: seq<Operation>)
    ensures StoredNamesFit(Run(ops))
  {
    hide Apply;
    if ops != [] {
      RunStoresShortNames(ops[..|ops| - 1]);
      ApplyStoresShortNames(Run(ops[..|ops| - 1]), ops[|ops| - 1]);
    }
  }

  lemma LongNameIsNeverRecorded(t: Tables, op: Operation)
    requires IsDeclaration(op) && !NameFits(op) && StoredNamesFit(t)
    ensures !IsRecorded(t, op)
  {
  }

  /** Repeating a declaration of a run, however long ago it was, changes nothing exactly when its name fits or it cannot
      be recorded.  A longer name is stored cut and never found again. */
  lemma RepetitionChangesNothingIff(ops: seq<Operation>, op: Operation)
    requires IsDeclaration(op) && ModuleFits(op) && op in ops
    ensures Run(ops + [op]) == Run(ops) <==> |op.name| < MAX_NAME || CannotBeRecorded(Run(ops), op)
  {
    hide Apply, IsRecorded, CannotBeRecorded;
    assert (ops + [op])[..|ops|] == ops;
    IgnoredIffUnchanged(Run(ops), op);
    if NameFits(op) {
      IgnoredInRun(ops, op);
    } else {
      RunStoresShortNames(ops);
      LongNameIsNeverRecorded(Run(ops), op);
    }
  }

  /** A function's identity contains its name.  So a function with a long name is refused by its identity, and repeating
      a function never changes anything. */
  lemma RepeatedFunctionChangesNothing(ops: seq<Operation>, op: Operation)
    requires op.Function? && ModuleFits(op) && op in ops
    requires op.usr.Some? ==> |op.name| <= |op.usr.value|
    ensures Run(ops + [op]) == Run(ops)
    ensures !NameFits(op) ==> forall t :: Apply(t, op) == Outcome(t, true)
  {
    hide Run;
    RepetitionChangesNothingIff(ops, op);
  }

  /** Macros and types have no identity that refuses them: a macro with a long name that is parsed twice is recorded and
      counted twice. */
  lemma LongMacroTwice(file: SourceFile, name: Text, line: nat)
    requires |file.moduleName| < MAX_NAME && |name| >= MAX_NAME
    ensures var op := Macro(file, name, line);
      && |Run([op]).macros| == 1 && |Run([op, op]).macros| == 2
      && |Run([op, op]).modules| == 1 && Run([op, op]).modules[0].macroCount == 2
      && !DistinctNames(Run([op, op]).macros)
  {
    var op := Macro(file, name, line);
    var record := NameRecord(Copy(name, MAX_NAME), file.moduleName, file.path, line, file.isHeader);
    var m0 := NewModule(file.moduleName);
    var m1, m2 := m0.(macroCount := 1), m0.(macroCount := 2);
    assert Run([]) == NO_TABLES;
    assert [] + [m0] == [m0] && [] + [record] == [record];
    assert GetModule(NO_TABLES, file.moduleName) == (NO_TABLES.(modules := [m0]), Some(0));
    var once := NO_TABLES.(macros := [record], modules := [m1]);
    assert Apply(NO_TABLES, op).tables == once;
    assert GetModule(once, file.moduleName) == (once, Some(0));
    var twice := NO_TABLES.(macros := [record, record], modules := [m2]);
    assert Apply(once, op).tables == twice;
    assert [op, op][..1] == [op] && [op][..0] == [];
    assert Run([op]) == once && Run([op, op]) == twice;
    assert SameNameSite(twice.macros[0], twice.macros[1]);
  }
}
