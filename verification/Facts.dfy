/** The semantic facts that the engines judge. */
module Facts {
  import opened CStrings

  /** The analysis kinds the engines distinguish; the remaining ones keep their number. */
  datatype Kind = Function | Call | Macro | Include | Note | Other(code: nat)

  /** The fields of `struct p101_wrapper_fact` that the modelled code reads. */
  datatype Fact = Fact(
    kind: Kind,
    path: Text,
    resolved: Text,
    name: Text,
    caller: Text,
    usr: Text,
    callerUsr: Text,
    line: nat,
    column: nat,
    start: nat,
    end: nat,
    isDefinition: bool,
    isPublic: bool,
    isIndirect: bool,
    needsEnv: bool,
    needsError: bool)

  predicate IsFunctionDefinition(fact: Fact) { fact.kind == Function && fact.isDefinition }

  /** `offset` lies in the half-open range of source text that `fact` covers. */
  predicate Covers(fact: Fact, path: Text, offset: nat) {
    fact.path == path && fact.start <= offset < fact.end
  }
}
