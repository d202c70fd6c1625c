# p101-audit: verified models of the policy engines

p101-audit judges C code by the facts that Clang reports about it: definitions, calls, macro uses, includes and
notes. This project models six of its engines in Dafny and proves what their results mean.

- **Instrumentation closure** (`HashIndex`, `Instrumentation`, `CapabilityMeaning`, `Repositories`, `ApiIndex`). An open-addressing table
  from identities to indices is built by linear probing, the notes seed six capability flags, and a loop passes the
  flags from callees to callers inside a repository. The result is exactly reachability: neither more nor less, in at
  most six changing passes per fact, whatever the order of the calls. The workspace has a second engine on the same
  table that refuses repeated identities.
- **SHA-256** (`Bits`, `Fips180`, `ShaBits`, `ShaConstants`, `Sha256`). The streaming implementation with 64-bit
  intermediates refines the definitions of FIPS 180-4, from the rotation of one word to the hexadecimal text. The
  logical functions are checked bit by bit, and the constants are the roots of the first primes.
- **Error contracts** (`ContractModel`, `SignalHandlers`, `ErrorContract`, `EventOwners`, `ContractMeaning`). Which
  events belong to which functions, what signal handlers can reach, how many distinct exits a function has, and the first event of a function that needs an environment or an error object that
  is not visible yet.
- **Module map** (`PathNormalizer`, `ModuleMap`, `RunRecords`, `ModuleNames`, `LocalIncludes`, `ProjectMap`,
  `Redeclaration`, `Idioms`). A path normalizer that edits a byte buffer in place, the tables and the counters that summarize them, the
  names of modules, and the shared-prefix rule for public names.
- **Wrapper judgement** (`Facts`, `FactOrder`, `Attribution`, `CallerMeaning`, `Judge`, `JudgeMeaning`). The order of the facts and their
  deduplication, the function that a fact is attributed to, and the findings with their allow rules.
- **API snapshots** (`ApiSnapshot`, `ApiCompare`, `ApiTransitivity`). Sorting by identity, refusing duplicates, and
  compatibility of two snapshots.

`CStrings` and `Graph` hold C strings and reachability. A C string is the sequence of bytes before its terminator
(`CStrings.Text`). `size_t` has `width` bits, at least 32, where its size matters; `sizeMax` is `SIZE_MAX`. Arrays that
the code changes in place are arrays here and the records it grows are fields of classes; each method is proved equal
to a function of its input or of the state before it, and the lemmas are about these functions. What the functions mean
is then said once more in the fields of facts, events and records, without them: `CapabilityMeaning`, `EventOwners`,
`ContractMeaning`, `RunRecords`, `CallerMeaning` and `JudgeMeaning` hold nothing else.

## What the proofs found

- `instrumentation_same_repository` is symmetric but not transitive. It is transitive through a path exactly when that
  path lies below no root other than `/libraries/`, the root that is tried first (`TransitiveIffOnlyFirstRoot`). The
  closure is therefore stated over paths of calls and not over repositories.
- The name of a macro or a type that has 128 bytes or more is stored cut and never matched again. A header that is
  parsed once for every source that includes it is then counted once for every parse (`LongMacroTwice`). In general
  repeating a declaration changes nothing exactly when its name fits its buffer or it cannot be recorded at all
  (`RepetitionChangesNothingIff`). Functions are safe: an identity contains the function's name, so a long one is
  refused for its identity (`RepeatedFunctionChangesNothing`). Sites stay distinct exactly when the cut name is free
  (`NewFunctionDistinctIff`, `NewMacroDistinctIff`, `NewTypeDistinctIff`). The counters agree with the records on every
  run (`RunIsSummarized`). Module names always fit, because every caller passes a buffer of that size.
- The native scan names a header by its file name alone. A local include meets that name exactly when what it spells,
  after `./` and `../` are normalized away, is not quoted by `@` and has no folder, or one folder that is `p101` or
  starts with `p101_` (`LocalIncludeMeetsHeaderIff`). So `./x.h` meets the header beside the source (`SiblingMeets`)
  and `../include/x.h` does not meet its header (`ParentMisses`).
- `p101_api_compare` reports nothing when a snapshot is compared with itself exactly when its repeated identities are
  compatible with their first record (`ReflexiveIffRepeatsAreCompatible`). "Reports nothing" carries over to every
  later snapshot exactly when nothing can follow the middle one without a finding, or the middle one pins every
  signature of the first (`CarriesOverIff`). For a middle snapshot whose identities are distinct this means that no
  signature was lost in between (`TransitiveIffSignaturesStay`): an empty signature, which only old snapshot versions
  have, matches everything. The loader does not refuse repeated identities.
- A finding prints the identity that rules are matched against, as the comment at `src/judge.c:831` says, for every
  fact that is not an indirect macro use (`PrintedIdentityIsMatched`). `docs/module-facts.md:26-34` gives the indirect
  flag to calls only. The judge reads the flag on any fact, and `PrintedIdentityIff` says what it would do with it.
- A definition whose span is `SIZE_MAX`, which no real file has, never encloses anything for the semantic caller
  (`SemanticCallerUnknown`), because the running minimum starts there.
- The scan for early returns ends at the first one, and line 0 is also its answer for "none". An early return without a
  line therefore hides every later one of its function: the single-exit rule is silent exactly when there is at most
  one exit site and the first early return, if any, has no line (`SingleExitSilentIff`, `EarlyReturnHidden`).

## Model

| member | source | states |
|---|---|---|
| HashIndex.Hash | src/instrumentation.c:142-160 | The hash in wrapping `size_t` arithmetic equals the one in unbounded arithmetic, for every text and every width of at least 32 bits: no step overflows. |
| HashIndex.MaskIsRemainder | src/instrumentation.c:168-169 | `& (capacity - 1)` is the remainder by the capacity, because capacities are powers of two that fit `size_t`. |
| HashIndex.MaskStep | src/instrumentation.c:188 | Adding one and masking goes to the next slot around the end, and so to the next probe position. |
| HashIndex.ProbesCover | src/instrumentation.c:171-189 | `capacity` probes visit every slot, from any home slot. |
| HashIndex.FreeMeansAbsent | src/instrumentation.c:209-212 | A free slot on the probe path of an identity proves that the table does not hold it. |
| HashIndex.TableStaysRepresented | src/instrumentation.c:175-181 | Filling the first free slot on the probe path adds the entry and leaves every other entry findable. |
| HashIndex.Insert | src/instrumentation.c:162-191 | Reports "present" exactly for an identity that the table holds, "full" exactly when no slot is free for a new one, and otherwise adds the entry; the table keeps representing its entries. |
| HashIndex.Lookup | src/instrumentation.c:193-224 | Returns the entry of the identity, and the missing marker for an empty or absent one. |
| Instrumentation.EntriesAreFirst | src/instrumentation.c:73-85 | After the first facts the table holds, for each identity, the lowest index that defines it, and no identity that nothing defines. |
| Instrumentation.EntriesAreScan | src/instrumentation.c:193-224 | Looking an identity up in the entries agrees with the linear scan for its first definition, absent and empty identities included. |
| Instrumentation.TableCapacity | src/instrumentation.c:49-65 | The capacity is a power of two that fits `size_t` and at least twice the number of identified definitions; the overflow exit is never taken. |
| Instrumentation.BuildIndex | src/instrumentation.c:66-85 | Insertion never reports a full map, the load is at most one half, and the slots represent the entries of all facts. |
| Instrumentation.Resolve | src/instrumentation.c:118-119 | A lookup through the table is the first function definition with that identity, or the number of facts. |
| Instrumentation.FallbackFunction | src/instrumentation.c:226-249 | The first definition whose text contains the fact, or the number of facts. |
| Instrumentation.FirstRootDecides | src/instrumentation.c:267-280 | The first root that both paths contain decides alone, by the components behind its first occurrences. |
| Instrumentation.InSameRepository | src/instrumentation.c:251-312 | True exactly when the first common root has the same component behind it in both paths. |
| Instrumentation.AddRole | src/instrumentation.c:314-343 | Sets exactly the flag that the role names and touches no other flag of any function. |
| Instrumentation.SeedNotes | src/instrumentation.c:86-109 | A flag is set afterwards exactly when it was before or some note shows it for that function, where a note belongs to its identified caller and else to the first definition around it. |
| Instrumentation.Merge | src/instrumentation.c:345-381 | The caller gets the union of both capability records, nothing else changes, and "changed" is reported exactly when the record differs. |
| Instrumentation.MissingAfterJoin | src/instrumentation.c:345-381 | A merge that changes something strictly lowers the number of unset flags. |
| Instrumentation.JoinJustified | src/instrumentation.c:129-130 | A merge along a call keeps every set flag justified by a chain of calls to a seed. |
| Instrumentation.SettledIsLeast | src/instrumentation.c:110-132 | After a pass without change a flag is set exactly when a chain of calls leads to a function seeded with it. |
| Instrumentation.Pass | src/instrumentation.c:112-131 | One in-place pass either lowers the number of unset flags or changes nothing and leaves every internal call settled. |
| Instrumentation.Propagate | src/instrumentation.c:110-132 | The loop ends with exactly the inherited flags, after at most six changing passes per fact. |
| Instrumentation.Collect | src/instrumentation.c:30-140 | No error exit is taken, and a flag of a function is true exactly when a function reachable from it by calls inside one repository had or was shown that flag. |
| Instrumentation.CapableIsLeast | src/instrumentation.c:110-132 | The result is the least: every set of functions that contains the seeds and the callers of its members contains all functions reported. |
| Instrumentation.CallOrderIsIrrelevant | src/instrumentation.c:112-131 | Reordering or repeating call facts changes no flag. |
| CapabilityMeaning.SeededIff | src/instrumentation.c:86-109 | A function starts with a flag if and only if some note of its own shows it, where a note belongs to the function first defined with the identity it names as its caller, and without one to the first definition around it. |
| CapabilityMeaning.SaysIff | src/instrumentation.c:102-107 | A trace use shows trace entry and trace exit; every other flag is shown by the note of its role alone. |
| CapabilityMeaning.TraceUseShowsBoth | src/instrumentation.c:102-106 | In the result of the analysis, a trace use gives its function both trace flags. |
| CapabilityMeaning.FlagsAreFields | src/instrumentation.c:324-331 | Every flag is the field of its name, and setting one flag sets no other. |
| CapabilityMeaning.CallEdgeIff | src/instrumentation.c:112-131 | A pair of functions is an edge of the closure if and only if some call fact names the first definitions of both, caller first, and their paths share a repository. |
| CapabilityMeaning.ShareRepositoryIff | src/instrumentation.c:251-312 | Two paths are of one repository if and only if, behind the first occurrence of the first root that both contain, both have the same component. |
| Repositories.SameRepositoryIsSymmetric | src/instrumentation.c:251-312 | Swapping the paths does not change the answer. |
| Repositories.TransitiveIffOnlyFirstRoot | src/instrumentation.c:251-312 | The test is transitive through a path, for all neighbours, if and only if that path contains neither `/programs/` nor `/templates/`. |
| Repositories.NotTransitiveThroughNestedProgram | src/instrumentation.c:251-312 | A concrete path through which it is not transitive. |
| ApiIndex.IndexApis | components/workspace/src/instrumentation.c:432-450 | Indexing stops with a refusal exactly when two APIs share an identity; otherwise every identity is found at its own index. |
| ApiIndex.EntriesGrow | components/workspace/src/instrumentation.c:360-386 | An identity that an insertion meets in the table is a repetition; one that it does not meet is added at its own index. |
| ApiIndex.SourceMatches | components/workspace/src/instrumentation.c:463-477 | The comparison accepts exactly the fact paths that end with the declared source. |
| ApiIndex.LastDefinition | components/workspace/src/instrumentation.c:451-485 | The last public definition with the API's identity and source; none lies after it, and the marker means that there is none at all. |
| ApiIndex.AssignAll | components/workspace/src/instrumentation.c:451-485 | Every API ends with the data of its last matching definition, and with the missing marker if there is none. |
| ApiIndex.AssignFacts | components/workspace/src/instrumentation.c:419-491 | Succeeds exactly when all identities differ, and then ties every API to its last matching definition; on refusal only markers were written. |
| ApiIndex.AssignedTells | components/workspace/src/instrumentation.c:451-485 | Index, env, error and capabilities of an API are those of the last public definition with its identity whose path ends with its source; without one only the missing marker is set, and the declaration never changes. |
| Sha256.Rotate | components/workspace/src/sha256.c:53-61 | The widened shifts, `or` and mask are ROTR of section 3.2 of FIPS 180-4. |
| Sha256.LoadWord | components/workspace/src/sha256.c:75-81 | Four bytes combined by shifts and `or` are the big-endian word. |
| Sha256.TruncateFour | components/workspace/src/sha256.c:83-90 | The narrowed 64-bit sum of four words is addition modulo 2^32, in the order of the standard's schedule. |
| Sha256.TruncateFive | components/workspace/src/sha256.c:99-122 | The same for the five terms of T1. |
| Sha256.Sha256State.ExpandSchedule | components/workspace/src/sha256.c:75-90 | The filled array is the message schedule of section 6.2.2. |
| Sha256.Sha256State.RunRounds | components/workspace/src/sha256.c:91-122 | Rotating a to h in place over 64 rounds gives the working variables of step 3, with the constants that `ShaConstants.ConstantsAreCubeRoots` ties to the primes. |
| Sha256.Sha256State.Transform | components/workspace/src/sha256.c:63-131 | One call is the compression of section 6.2.2 on the old hash value and the block. |
| Sha256.Sha256State.constructor | components/workspace/src/sha256.c:33-42 | The start state holds the initial hash value of section 5.3.3 and no message. |
| Sha256.Sha256State.Update | components/workspace/src/sha256.c:133-146 | The state depends on the concatenation of all data only, so splitting it over several calls changes nothing. |
| Sha256.Sha256State.Finish | components/workspace/src/sha256.c:148-182 | The digest is that of the padded message, in the one-block and in the two-block case. |
| Sha256.Sha256State.StoreLength | components/workspace/src/sha256.c:170-173 | The last eight bytes are the 64-bit length, most significant byte first. |
| Fips180.FoldAppend | components/workspace/src/sha256.c:133-146 | Hashing blocks one after the other is hashing their concatenation. |
| Fips180.PadInOneBlock | components/workspace/src/sha256.c:148-173 | With at most 55 bytes left the padded message ends in one block of rest, one bit, zeros and length. |
| Fips180.PadInTwoBlocks | components/workspace/src/sha256.c:148-173 | With more left it ends in two blocks, and compressing both gives the standard's hash. |
| Fips180.ZeroBytesIsSmallest | components/workspace/src/sha256.c:154-169 | The padding has the smallest number of zero bits that section 5.1.1 admits. |
| Fips180.LengthFieldIsLength | components/workspace/src/sha256.c:152-153 | Within the standard's bound the length field reads back as the length in bits. |
| Fips180.BigEndianLowBytes | components/workspace/src/sha256.c:170-181 | Writing a number as bytes and reading it back is the identity when it fits. |
| Sha256.HexDigit | components/workspace/src/sha256.c:47-48 | A digit of the table is a lower-case hexadecimal digit and stands for its index. |
| Sha256.Sha256Text | components/workspace/src/sha256.c:27-51 | The output is 64 lower-case hexadecimal digits that read as the digest of the data, and a terminator. |
| ShaConstants.PrimesAreFirst | components/workspace/src/sha256.c:22-25 | The table of 64 numbers that the constants are compared with holds exactly the first 64 primes, in order. |
| ShaConstants.ConstantsAreCubeRoots | components/workspace/src/sha256.c:22-25 | For each of the 64 rounds the constant is the first 32 bits of the fractional part of the cube root of that prime (section 4.2.2 of FIPS 180-4). |
| ShaConstants.ThirdRootIsUnique | components/workspace/src/sha256.c:22-25 | No other word meets this definition for the same prime. |
| ShaConstants.InitialHashIsSquareRoots | components/workspace/src/sha256.c:33-40 | The eight words of the start state are the first 32 bits of the fractional parts of the square roots of the first eight primes (section 5.3.3). |
| ShaBits.ChooseBit | components/workspace/src/sha256.c:108 | Each bit of Ch is that of y where x has a one, and that of z elsewhere. |
| ShaBits.MajorityBit | components/workspace/src/sha256.c:109 | Each bit of Maj is the one that at least two of the three words have. |
| ShaBits.RotatedBit | components/workspace/src/sha256.c:53-61 | Rotation moves every bit down by the amount, around the end of the word. |
| ShaBits.ShiftedOutBit | components/workspace/src/sha256.c:87-88 | The shift moves every bit down, and zeros follow. |
| ShaBits.SigmaBits | components/workspace/src/sha256.c:87-111 | Each bit of the four sigma functions is the parity of three bits of the word, at the distances of section 4.1.2. |
| ContractModel.FunctionIndexByUsr | components/error-contract/src/contract.c:488-511 | The first function record with the identity, none for an empty one. |
| SignalHandlers.MarkHandlers | components/error-contract/src/contract.c:761-776 | Every registered handler is marked, and nothing else that is not signal-reachable. |
| SignalHandlers.UnmarkedAfterMark | components/error-contract/src/contract.c:777-800 | Marking one more function strictly lowers the number of unmarked ones, which ends the loop. |
| SignalHandlers.Pass | components/error-contract/src/contract.c:777-800 | One pass either marks more or leaves every recorded call settled. |
| SignalHandlers.SettledIsReachable | components/error-contract/src/contract.c:777-800 | When a pass changes nothing, exactly the functions that a chain of calls leads to from a handler are marked. |
| SignalHandlers.Close | components/error-contract/src/contract.c:757-800 | The marks are exactly signal reachability. |
| SignalHandlers.SignalFindingsAreExact | components/error-contract/src/contract.c:801-842 | A finding is reported if and only if some event offends as it says: a shared access, or a call neither scanned nor safe, whose caller is signal-reachable. |
| SignalHandlers.AnalyzeSignalHandlers | components/error-contract/src/contract.c:755-843 | The report grows by exactly these findings, in event order. |
| SignalHandlers.UnsafeIff | components/error-contract/src/contract.c:822-840 | An event is an unsafe call if and only if it is a call whose identity is empty or no function's, and the table of safe operations does not list it. |
| SignalHandlers.HandlerIff | components/error-contract/src/contract.c:761-776 | A function is a handler if and only if some registration names it as the first with that identity. |
| SignalHandlers.CallEdgeIff | components/error-contract/src/contract.c:777-800 | An edge is a recorded call between the first functions with the two identities, caller first. |
| SignalHandlers.MoreSafeCallsReportLess | components/error-contract/src/contract.c:801-842 | Adding safe operations only removes findings. |
| SignalHandlers.OnlyListedCallsAreSilenced | components/error-contract/src/contract.c:801-842 | It removes exactly the findings of unsafe calls whose operation was added, and none of shared accesses. |
| ErrorContract.NextFunctionLine | components/error-contract/src/contract.c:987-1016 | The least line of a function behind this one in its file, or `SIZE_MAX`. |
| ErrorContract.ExitEventIsDuplicate | components/error-contract/src/contract.c:925-985 | True exactly when an earlier event has the same kind, line, start, path and caller. |
| ErrorContract.ExitsAreDistinctSites | components/error-contract/src/contract.c:876-985 | The exits counted are as many as there are distinct exit sites of the function, because repeated mentions are attributed alike. |
| ErrorContract.FunctionExitCount | components/error-contract/src/contract.c:876-923 | The count is the number of distinct exit sites, and the line is that of the second one in event order. |
| ErrorContract.FunctionEarlyReturnLine | components/error-contract/src/contract.c:845-874 | The line of the first early return that belongs to the function, 0 without one. |
| ErrorContract.VisibleBefore | components/error-contract/src/contract.c:1044-1126 | The contract is visible exactly when it is declared or some use of it in the function is not after the event. |
| ErrorContract.ErrorIsExplicitlyOptional | components/error-contract/src/contract.c:1128-1190 | True exactly when a note at the same line, start and caller in the function declares the error optional. |
| ErrorContract.DirectNeedsNothing | components/error-contract/src/contract.c:189-383 | The kinds that are reported as they are never violate an env or error rule, so skipping the rest of the turn loses nothing. |
| ErrorContract.OneFindingAtFirstViolation | components/error-contract/src/contract.c:385-440 | Each function has no env-required (error-required) finding when no event violates the rule, and else exactly one, at the first violating event. |
| ErrorContract.FindingsCountViolatingFunctions | components/error-contract/src/contract.c:137-440 | The whole report has as many env-required (error-required) findings as there are functions with a violating event. |
| ErrorContract.JudgeEvent | components/error-contract/src/contract.c:173-484 | One turn adds what the event contributes without any state, because the flags tell exactly whether an earlier event violated the rule; only the error rule knows the exemption. |
| ErrorContract.AnalyzeExits | components/error-contract/src/contract.c:151-171 | A single-exit finding at the first early return if it has a line, else at the second distinct exit, else none. |
| ErrorContract.SingleExitSilentIff | components/error-contract/src/contract.c:151-171 | No single-exit finding if and only if there is at most one distinct exit site and the first early return, if any, has line 0. |
| ErrorContract.EarlyReturnHidden | components/error-contract/src/contract.c:845-874 | Behind an early return at line 0 one at line 12 is not reported. |
| ErrorContract.AnalyzeModel | components/error-contract/src/contract.c:114-486 | The report grows by the exit and event findings of every function in turn; `EventOwners` and `ContractMeaning` say which these are. |
| EventOwners.IdentifiedIff | components/error-contract/src/contract.c:1026-1032 | An event with a caller identity belongs to a function of its file if and only if the identities are equal, whatever lines and extents say. |
| EventOwners.OwnersShareIdentity | components/error-contract/src/contract.c:1026-1032 | All owners of such an event have one identity. |
| EventOwners.ByExtentIff | components/error-contract/src/contract.c:1033-1036 | Without an identity, an event with an offset belongs to a function with an extent if and only if its file is the function's and the offset lies in the half-open extent. |
| EventOwners.ApartShareNothing | components/error-contract/src/contract.c:1033-1036 | Functions whose extents do not overlap share no such event. |
| EventOwners.ByLineIff | components/error-contract/src/contract.c:987-1042 | Without identity or extent, an event belongs to a function, up to the line of the next one, if and only if this is a last function of the file that starts at or before it. |
| EventOwners.OwnersShareLine | components/error-contract/src/contract.c:987-1042 | All its owners start at one line. |
| EventOwners.HasOwner | components/error-contract/src/contract.c:987-1042 | It has an owner as soon as some function of its file starts at or before it. |
| ContractMeaning.EnvViolatedIff | components/error-contract/src/contract.c:385-407 | An event of a function violates the env rule if and only if it traces or calls with an env, the function declares no env, and every use of one in the function comes after it. |
| ContractMeaning.ErrorViolatedIff | components/error-contract/src/contract.c:409-437 | The same for the error rule, unless a note at the event's line, offset and caller in the function declares the error optional. |
| ContractMeaning.DirectFindingIff | components/error-contract/src/contract.c:189-383 | A finding of a directly reported kind is in the report of a function if and only if some event of that kind in the function has its path and line; a process termination counts neither in `main` nor in a declared adapter. |
| ContractMeaning.SilenceableFindingIff | components/error-contract/src/contract.c:439-482 | A discarded error, and in strict mode an unchecked chain, is reported if and only if it is in the function and no note declares it optional. |
| ContractMeaning.ExitSiteIff | components/error-contract/src/contract.c:876-923 | The exit sites are those of the returns and process terminations of the function. |
| ContractMeaning.ExitFindingIff | components/error-contract/src/contract.c:151-171 | The single-exit finding of a function stands at the line of its first early return if that has one, and otherwise at the first exit that differs in kind, line, start, path or caller from an exit before it. |
| ContractMeaning.ReportedIff | components/error-contract/src/contract.c:114-486 | A finding is in the whole report if and only if it is an exit or event finding of one of the functions. |
| PathNormalizer.PushAllIsNormal | components/module-map/src/model_mutation.c:44-107 | No component of the result is empty or `.`, and `..` is only a leading run. |
| PathNormalizer.ComponentsOfJoin | components/module-map/src/model_mutation.c:96-105 | Joining components and splitting the result gives them back. |
| PathNormalizer.NormalizeIsIdempotent | components/module-map/src/model_mutation.c:44-107 | A normalized path is normal, and normalizing it again changes nothing. |
| PathNormalizer.NormalizeKeepsMeaning | components/module-map/src/model_mutation.c:44-107 | From every starting directory the normalized path leads where the path leads, read as a relative path: a leading `/` counts for nothing, as in the code. |
| PathNormalizer.NormalizeDecidesMeaning | components/module-map/src/model_mutation.c:44-107 | Two paths normalize alike if and only if, read as relative paths, they lead to the same place from every directory. |
| PathNormalizer.ReadComponent | components/module-map/src/model_mutation.c:59-68 | The two scans skip exactly the slashes and read exactly one component. |
| PathNormalizer.Undo | components/module-map/src/model_mutation.c:75-90 | Cutting the buffer back drops exactly the last name, and nothing when that is `..`. |
| PathNormalizer.Append | components/module-map/src/model_mutation.c:96-105 | The buffer then holds the joined stack with the component on top, and no more bytes than the input consumed. |
| PathNormalizer.NormalizeRelativePath | components/module-map/src/model_mutation.c:44-107 | The buffer ends with the normalized path and its terminator; every write is inside the buffer. |
| ProjectMap.LocalIncludeToModule | components/module-map/src/model_mutation.c:109-160 | A relative target is taken from the including module's folder, cut to the buffer and normalized before it names a module; every other one names a module as it is spelt. |
| ModuleNames.ShortNameOfJoined | components/module-map/src/strings.c:28-61 | The module of a file does not depend on the folder of the file. |
| ModuleNames.StemIsModule | components/module-map/src/strings.c:28-61 | The name of a file between its folder and its last suffix names its module, without `p101_` in front and cut to the buffer. |
| ModuleNames.HeaderMeetsSource | components/module-map/src/strings.c:28-61 | The header and the source of one stem get one module, in whatever folders they are. |
| LocalIncludes.NormalizeShortens | components/module-map/src/model_mutation.c:92-95 | A normalized path is never longer than the path. |
| LocalIncludes.LocalIncludeMeetsHeaderIff | components/module-map/src/model_mutation.c:109-160 | From any module, a local include that fits its buffer names the module that the native scan gives to what it spells after normalization, in any folder, if and only if the spelling is not quoted and has no folder or only that of one `p101` library. |
| LocalIncludes.SpelledLeads | components/module-map/src/model_mutation.c:109-160 | What a relative include spells leads, from every directory, where the folder of the including module and then the target lead. |
| LocalIncludes.SpelledLeadsAlone | components/module-map/src/model_mutation.c:126-136 | From a module without a folder it leads where the target leads. |
| LocalIncludes.SpellingKeepsFile | components/module-map/src/model_mutation.c:109-160 | A header has the same module name whether the path of the include is normalized or not. |
| LocalIncludes.SiblingMeets | components/module-map/src/model_mutation.c:109-160 | From a module without a folder `./x.h` names the module of the header beside it. |
| LocalIncludes.ParentMisses | components/module-map/src/model_mutation.c:109-160 | From `main`, `../include/x.h` does not name the module of its header. |
| ProjectMap.ProjectMap.AddSourceFile | components/module-map/src/model_mutation.c:194-201 | A file without a given module is added to the module of its short name. |
| ModuleMap.GetModuleKeeps | components/module-map/src/model_mutation.c:162-192 | Finding or making a module whose name fits keeps the map summarized (names distinct, every record in a module, every counter right) and yields a module of that name. |
| ModuleMap.AddFileKeeps | components/module-map/src/model_mutation.c:203-245 | Adding a file keeps the map summarized: also a module's source and header path, which stay those of its first files. |
| ModuleMap.AddIncludeKeeps | components/module-map/src/model_mutation.c:247-285 | Adding an include keeps it summarized. |
| ModuleMap.AddFunctionKeeps | components/module-map/src/model_mutation.c:287-367 | Adding a function of any name keeps it summarized: the counters by linkage and the sum of static and public ones. |
| ModuleMap.AddMacroKeeps | components/module-map/src/model_mutation.c:369-408 | Adding a macro of any name keeps it summarized. |
| ModuleMap.AddTypeKeeps | components/module-map/src/model_mutation.c:410-449 | Adding a type of any name keeps it summarized, also when only its module is new. |
| ModuleMap.RunIsSummarized | components/module-map/src/model_mutation.c:162-449 | After any sequence of operations, whatever the declared names, module names are distinct, every module's paths are those of its first files, every counter equals the number of matching records, and every record has a module. |
| ModuleMap.RunKeepsSites | components/module-map/src/model_mutation.c:19-449 | After any sequence of operations whose declared names fit, no two functions, macros or types share name, path and line. |
| RunRecords.ApplyAdds | components/module-map/src/model_mutation.c:203-449 | An operation appends exactly one record, with the operation's names (cut to their buffers), identity, module, path, line, linkage, header and declaration flags, if its table has room, its identity fits, its module can be found or made, and the site is free; otherwise it appends nothing. The other tables stay. |
| RunRecords.RaisedIff | components/module-map/src/model_mutation.c:203-449 | An operation raises an error if and only if its table is full, its identity is absent or too long, or its module can neither be found nor made; for functions and macros not on behalf of a module when the site is recorded. |
| RunRecords.RunHoldsItsOperations | components/module-map/src/model_mutation.c:162-449 | After any run each table holds, in order, one record for each operation recorded in it, and each record says what its operation says. |
| RunRecords.RecordedIff | components/module-map/src/model_mutation.c:162-449 | An operation is recorded if and only if it was accepted where it stands in the run. |
| RunRecords.CountersTell | components/module-map/src/model_mutation.c:162-449 | After any run each counter of a module is the number of records with its name and the flags that the counter is about, and its two paths are the first ones that are not empty. |
| Redeclaration.IgnoredIffUnchanged | components/module-map/src/model_mutation.c:287-449 | A declaration leaves the tables alone if and only if its table is full, its identity is bad, its module cannot be made, or its site is recorded. |
| Redeclaration.RepetitionChangesNothingIff | components/module-map/src/model_mutation.c:12-42 | Repeating a declaration of a run leaves every table and count as it is, as a header parsed once per including source needs, if and only if its name fits its buffer or it cannot be recorded. |
| Redeclaration.RepeatedFunctionChangesNothing | components/module-map/src/model_mutation.c:301-320 | A function whose identity is at least as long as its name is refused when the name does not fit, and repeating it never changes anything. |
| Redeclaration.LongMacroTwice | components/module-map/src/model_mutation.c:369-408 | A macro whose name has 128 bytes or more is recorded and counted twice when it is parsed twice. |
| ModuleMap.NewModuleDistinctIff | components/module-map/src/model_mutation.c:180-188 | A new module of any name keeps the names distinct if and only if its truncated name is free. |
| ModuleMap.NewFunctionDistinctIff | components/module-map/src/model_mutation.c:322-343 | Adding a function of any name keeps the sites distinct if and only if it is not recorded or its cut name is free at that site. |
| ModuleMap.NewMacroDistinctIff | components/module-map/src/model_mutation.c:381-404 | The same for a macro. |
| ModuleMap.NewTypeDistinctIff | components/module-map/src/model_mutation.c:422-445 | The same for a type. |
| ProjectMap.ProjectMap.FindModule | components/module-map/src/model_mutation.c:162-192 | The first module of the name, else a new one at the end, else none when the table is full. |
| ProjectMap.ProjectMap.AddNamedSourceFile | components/module-map/src/model_mutation.c:203-245 | The new tables and the error state are those of the operation on values. |
| ProjectMap.ProjectMap.AddInclude | components/module-map/src/model_mutation.c:247-285 | The same for an include, with the module that a local one names. |
| ProjectMap.ProjectMap.AddFunction | components/module-map/src/model_mutation.c:287-367 | The same for a function; a repeated site is no error and changes nothing, a missing or long identity is one. `RunRecords` says what the record holds. |
| ProjectMap.ProjectMap.AddMacro | components/module-map/src/model_mutation.c:369-408 | The same for a macro. |
| ProjectMap.ProjectMap.AddType | components/module-map/src/model_mutation.c:410-449 | The same for a type, which asks for its module before it looks for a repetition. |
| Idioms.Shorten | components/module-map/src/idioms.c:171-179 | Comparing with one more name leaves the longest prefix of the first that all names share. |
| Idioms.CutBack | components/module-map/src/idioms.c:186-193 | Cutting back to the last underscore finds the longest shared prefix that ends in one, and 0 means that there is none. |
| Idioms.ModuleSharesPrefix | components/module-map/src/idioms.c:122-207 | Fails exactly when at least two public functions share no prefix that ends in an underscore, or none longer than `p101_` where an owner prefix is asked for. |
| Idioms.PublicNameIff | components/module-map/src/idioms.c:137-170 | The names that the rule judges are those of the module's functions that are not static, no header declarations and not `main`. |
| Idioms.PublicNamesCount | components/module-map/src/idioms.c:137-170 | There are as many of them as there are such records, also when names repeat. |
| Idioms.OrderIsIrrelevant | components/module-map/src/idioms.c:122-207 | Every rearrangement of the functions gets the same answer. |
| Idioms.WritePeer | components/module-map/src/idioms.c:92-120 | The buffer gets the stem with the other suffix and a terminator exactly when the name has the suffix behind a stem and the peer fits; else it is left alone. |
| Idioms.SwapSuffixBack | components/module-map/src/idioms.c:92-120 | Swapping the suffix of a peer back gives the name. |
| FactOrder.CompareText | src/model.c:474-496 | The loop is the byte-wise order in which an ended text is smaller. |
| FactOrder.CompareTextLaws | src/model.c:474-496 | Antisymmetric up to equality, zero exactly for equal texts, transitive. |
| FactOrder.TextOrderIff | src/model.c:474-496 | A text comes first if and only if, after the longest common start, it ends or has the smaller byte. |
| FactOrder.CompareFactsLaws | src/model.c:498-548 | A total preorder: antisymmetric, transitive, and with ties exactly where the keys are equal, which are the fields below. |
| FactOrder.FirstDifferenceDecides | src/model.c:498-548 | Path, line, column, kind, name, caller, identity, caller identity, start, end and definition flag decide in this order, the smaller value first and a declaration before a definition. |
| FactOrder.TiesAgreeInFields | src/model.c:498-548 | Two facts tie if and only if these eleven fields are equal, the kinds by their numbers. |
| FactOrder.CompactIsIncreasing | src/model.c:559-574 | Compacting sorted facts leaves a strictly increasing sequence. |
| FactOrder.CompactRepresents | src/model.c:559-574 | It keeps only facts that were there, and one that ties with each of them. |
| FactOrder.DeduplicateFacts | src/model.c:550-576 | For every order in which sorting may leave ties, the kept part of the array is strictly increasing, comes from the facts and has a tie for each; the rest of the array is untouched. |
| Attribution.NarrowestIsEarliestMinimal | src/judge_support.c:16-38 | The choice of the loop is the earliest enclosing definition of least span below `SIZE_MAX`. |
| Attribution.SemanticCallerUsr | src/judge_support.c:4-42 | A known caller is kept, else the chosen definition's identity is returned, else the empty one. |
| Attribution.NarrowestIsInnermost | src/judge_support.c:4-42 | When definitions are properly nested, the chosen one lies inside every definition around the fact. |
| Attribution.SemanticCallerUnknown | src/judge_support.c:4-42 | Nothing is chosen if and only if every definition around the fact is at least `SIZE_MAX` wide. |
| Attribution.AssignMacroCallers | src/model.c:259-453 | Every fact ends as attributed from the facts before the loop, although the loop reads the array that it writes. |
| Attribution.AttributionIsIdempotent | src/model.c:259-453 | Attributing a second time changes nothing. |
| CallerMeaning.CallerIff | src/judge_support.c:4-42 | The caller of a fact is the identity it names, else that of the earliest of the shortest definitions of its file around its start, and empty only without one or when that one has no identity. |
| CallerMeaning.AttributedTells | src/model.c:259-453 | A macro use without a caller takes that of the first call with a known caller around it, and where this has no name that of the earliest of the shortest definitions around it; no other field and no other fact changes. |
| Judge.FindWrapperEntry | src/judge.c:106-182 | The first inventory entry with the canonical identity, or for macros with the name. |
| Judge.MatchPath | src/judge.c:217-244 | True exactly when the pattern matches the path or what follows one of its slashes. |
| Judge.TestAllowed | src/judge.c:275-378 | Allowed exactly when the call is the wrap itself, its identity is allowed, or some rule applies; only the first such rule is counted as used, and only when it was needed. |
| Judge.TestAllowedMacro | src/judge.c:380-499 | Allowed exactly when a macro use inside the call, in the same caller, has an allowed wrapper; the rules used are those of the first such macro. |
| Judge.Model.AddFinding | src/judge.c:501-576 | A finding is added exactly when no earlier one has its path, line, column and name. |
| Judge.TestImplementation | src/judge_support.c:67-119 | True exactly for a call from the declared wrapper or from a wrapper that the call lowers to. |
| Judge.TestLocal | src/judge_support.c:121-150 | True exactly when some definition has the call's identity. |
| Judge.TestErrnoLowering | src/judge_support.c:152-212 | True exactly for an errno provider at the line and caller of a use of `errno`. |
| Judge.TestCallsAWrapper | src/judge.c:184-215 | True exactly for a call to a wrapper of the inventory. |
| Judge.JudgeFact | src/judge.c:651-842 | A fact adds its finding exactly when it is rejected, whatever was judged before, and counts exactly the rule that it used. |
| Judge.JudgeModel | src/judge.c:642-866 | The findings are those of the rejected facts in order, once a key; the run succeeds exactly when every allow rule was used. |
| Judge.FindingKeysAreRejectedKeys | src/judge.c:501-576 | The finding keys are pairwise distinct and are exactly the keys of the rejected facts. |
| Judge.EarliestFindingIsKept | src/judge.c:501-576 | A finding is in the report if and only if it is that of a rejected fact which no earlier rejected fact shares its key with: the earliest one decides kind, replacement and identity. |
| Judge.WidensAllowed | src/judge.c:275-378 | What is allowed stays allowed when rules or identities are added. |
| Judge.RejectedShrinks | src/judge.c:642-841 | A fact that is rejected with more allowances was rejected with fewer. |
| Judge.WiderPolicyReportsLess | src/judge.c:642-841 | Adding allow rules or allowed identities only shrinks the set of reported keys. |
| Judge.PrintedIdentityIsMatched | src/judge.c:831-832 | The identity that a finding prints is the one that rules are matched against, for every fact but an indirect macro use. |
| Judge.PrintedIdentityIff | src/judge.c:806-832 | For any fact with a function's identity the two agree if and only if it is no indirect macro use, or its inventory entry has no native identity or the fact's own. |
| Judge.IndirectMacroDisagrees | src/judge.c:806-832 | The shape on the other side of that condition, which no documented fact has: an indirect use of `m` prints `macro:m` and is matched as `c:@F@m`. |
| Judge.MatchedIdentitySilences | src/judge.c:275-378 | A rule for the fact's path and caller with the identity that is matched silences the fact. |
| Judge.PrintedIdentitySilences | src/judge.c:831-832 | Copying the printed identity into a rule for the fact's path and caller silences the fact, for every fact but an indirect macro use. |
| JudgeMeaning.FoundIff | src/judge.c:106-182 | The entry of a fact is the first whose nonempty identity the fact's stands for, or whose name is that of the macro; there is none if and only if no entry is so. |
| JudgeMeaning.IdentityOfFunction | src/judge.c:246-273 | What is no macro and has no type marker is matched by its native identity. |
| JudgeMeaning.IdentityOfType | src/judge.c:246-273 | What has one is matched by `c:` and the part from its first marker on, cut to 255 bytes. |
| JudgeMeaning.IdentityOfMacro | src/judge.c:246-273 | A macro is matched by the identity of its entry, else by its own, else by `macro:` and its name, cut to 255 bytes. |
| JudgeMeaning.AllowedIff | src/judge.c:275-378 | A fact is allowed if and only if its caller is the wrapper of its entry, its identity is allowed everywhere, or a rule names it, its caller or any, and a pattern that matches its path or what follows one of the slashes. |
| JudgeMeaning.RuleUsedIff | src/judge.c:275-378 | The rule counted as used is the first of these rules, and none when no rule was needed. |
| JudgeMeaning.CrossesIff | src/judge.c:668-800 | The allowances are asked about exactly the named calls, and the macro uses with a caller and an entry, that call no wrapper and nothing the project defines and are no part of `errno`. |
| JudgeMeaning.RejectedIff | src/judge.c:642-805 | A fact is rejected if and only if it is a platform include that is checked, or it is asked about, not allowed, not excused by an allowed macro use inside it, and not made by the function that implements it. |
| JudgeMeaning.EveryFindingTells | src/judge.c:802-841 | Every finding has the place, name and caller of a rejected fact that is the first at its place: Portability exactly for an include, Indirect exactly for an indirect fact, Missed exactly when an entry knows the fact, with the wrapper of the first such entry as replacement, and External with none otherwise. |
| JudgeMeaning.EveryReportedFactIsTold | src/judge.c:802-841 | And every rejected fact that is the first at its place has such a finding. |
| ApiSnapshot.SortRecords | components/api/src/api.c:498-521 | The array ends as the insertion sort of its old contents. |
| ApiSnapshot.InsertIs | components/api/src/api.c:507-519 | The gap that the inner loop makes is where the value belongs. |
| ApiSnapshot.SortIsStable | components/api/src/api.c:498-521 | The result is sorted by identity, is a permutation, and keeps the order of the records of every identity. |
| ApiSnapshot.NeighboursDecide | components/api/src/api.c:564-571 | In a sorted array the identities are distinct exactly when no neighbours are equal. |
| ApiSnapshot.SortKeepsUnique | components/api/src/api.c:498-521 | Sorting neither makes nor hides a duplicate. |
| ApiSnapshot.SortAndCheck | components/api/src/api.c:563-571 | The snapshot is accepted exactly when the records as they were loaded have distinct identities. |
| ApiCompare.FindRecord | components/api/src/api.c:725-740 | The first record of the identity, none exactly when there is none. |
| ApiCompare.SilentIffCompatible | components/api/src/api.c:804-858 | Nothing is reported for a pair exactly when no rule is broken. |
| ApiCompare.CompatibleIff | components/api/src/api.c:804-858 | No rule is broken if and only if library, known header, every supported platform and declared ownership stay and the signature stays or is unknown to one side. |
| ApiCompare.RulesTell | components/api/src/api.c:804-828 | Each lost platform, a changed ownership and a move have the finding of their own rule; a move to another library hides one to another header. |
| ApiCompare.SignatureRulesTell | components/api/src/api.c:829-853 | A changed signature has the finding that the kind of the old record selects, and no other. |
| ApiCompare.CompatibleComposes | components/api/src/api.c:804-858 | Over a middle version all unbroken rules compose but that of the signature, which composes when the middle version has one, although the rule is chosen by the older record's kind. |
| ApiCompare.ComparePair | components/api/src/api.c:804-858 | The branches report the broken rules in this order, with the signature rule of the old record's kind. |
| ApiCompare.Compare | components/api/src/api.c:773-878 | The findings are those of the old records in order, a missing successor included, and the additions are the new records without a predecessor. |
| ApiCompare.CleanIff | components/api/src/api.c:791-859 | No finding at all exactly when every old record has a compatible successor. |
| ApiCompare.CleanKeepsPromises | components/api/src/api.c:791-859 | No finding at all if and only if the first successor of every old record keeps its library, known header, supported platforms, declared ownership and known signature. |
| ApiCompare.ReportedIff | components/api/src/api.c:791-859 | A finding is reported if and only if it says that an old record has no successor, or is one that the record and its first successor show. |
| ApiCompare.ReflexiveIffRepeatsAreCompatible | components/api/src/api.c:773-878 | A snapshot compared with itself has no addition, and no finding exactly when its repeated identities are compatible with their first record; distinct identities suffice. |
| ApiCompare.RepetitionBreaksReflexivity | components/api/src/api.c:725-740 | A snapshot with a repeated identity that has findings against itself. |
| ApiTransitivity.HasCleanSuccessorIff | components/api/src/api.c:773-878 | Some snapshot follows without a finding if and only if the records of each repeated identity agree in library, header and ownership. |
| ApiTransitivity.CarriesOverIff | components/api/src/api.c:829 | For any middle snapshot, "no finding" carries over to every later one if and only if none can follow it without a finding, or for every signature of the first it has that signature or two different ones. |
| ApiTransitivity.TransitiveIffSignaturesStay | components/api/src/api.c:829 | For a middle snapshot whose identities are distinct, it carries over if and only if no signature of the first was lost in the middle. |
| ApiTransitivity.CompareIsTransitive | components/api/src/api.c:773-878 | When the middle snapshot has a signature in every record, "no finding" is transitive. |

## Left out

- Option parsing, process wiring, the launchers, the doctor component, and all report, JSON and Markdown writers:
  formatted input and output. Findings are appended to a sequence, without their message texts.
- libclang and the semantic loader: facts, events and records are arbitrary input sequences.
- `fnmatch`, and the classification of note names: function parameters (`Policy.matches`, `isTraceUse`). `qsort`: any
  sorted rearrangement of its input. `strcmp`, `strstr` and `strchr` follow the C standard.
- Constant tables: the async-signal-safe operations, canonical native identities, lowered aliases, errno providers and
  platform headers are parameters. The constants of SHA-256 and of the hash are the real ones.
- Allocation and I/O failures: no run stops early because memory ran out or a report could not be written, so the
  error flag that ends the loops in that case is not modelled.
- `strings.c` of the module map: its names are computed on values; the copies into its local buffers are not modelled.
- `p101_module_map_add_call`, `p101_module_map_add_note` and the ownership analysis: the same patterns as the
  operations that are modelled.
- `load_manifest`, `load_semantics` and `load_snapshot`: parsing. A snapshot is any sequence of records.
- The workspace's contract checkers and the capability requirements of its instrumentation check: field comparisons.
- `instrumentation.c` of the workspace limits its APIs to 2048 before it builds the table; the model requires this.
- Instrumentation.Collect: requires that the facts fit in memory, since every fact holds two 4096-byte paths in one
  allocation.
- ProjectMap.ProjectMap.AddInclude: requires that the including file's module name fits, as it does in every
  `struct source_file`; record fields that are copied from one field to another of the same size are not cut again.
- ModuleMap.RunIsSummarized: requires that module names fit, as they do in every `struct source_file`.
- ModuleMap.RunKeepsSites: for declared names that fit; the exact condition for each operation is stated apart.
- LocalIncludes.LocalIncludeMeetsHeaderIff: for local includes that fit the buffer, and against the names that the
  native scan gives; external includes are copied as they are spelt, and the names in a recorded fact stream come from
  its producer.
- Judge.WiderPolicyReportsLess: says that keys can only disappear, not which ones; that is `IsAllowed`.
- Judge.Model.AddFinding: the copies of the fact's fields into a finding are whole, since the buffers have equal sizes.
- Judge.PrintedIdentityIff: for identities of functions, without a type marker and unlike that of a macro; the indirect
  macro uses that it separates are in no fact that `docs/module-facts.md` describes.
- FactOrder.CompareFactsLaws: the numbering of the kinds is a parameter, and kinds with one number tie.
- Fips180.LengthFieldIsLength: for messages below 2^64 bits, as the standard requires; for longer ones the length is
  reduced modulo 2^64 in `Fips180.Pad` as in the code.
