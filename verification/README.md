# A verified model of libnativehelper

This Dafny project models the parts of libnativehelper whose correctness is hardest to see from the
code, and proves what they guarantee. `dafny verify dfyconfig.toml` checks all of it.

**The JNI signature checker** (`signature_checker.h`). A descriptor parser, a lookup-and-compare
step and a descriptor printer are written independently of each other and have to agree on every
string and every C++ function type. `Grammar` defines the language of signatures without reference
to parsing. `ConstexprContainers`, `Parser`, `TypeTraits`, `FunctionTypes`, `Matcher` and
`Inference` follow the header: string views over a shared literal, a vector of fixed capacity, loops
where it has loops, and a precondition for each assertion. The main results are that the parser and
the printer are inverse to each other (`ParseIffPrint`), that a match means agreement on how every
value is passed (`MatchAgreesOnPassing`), and that inference succeeds on exactly those function types
that one string and no other matches, and then prints that string (`InferredIffUniqueMatch`,
`MatchIffInferred`).

**The constants cache** (`JniConstants.cpp`). `ConstantsCache` is a transition system: any number of
threads, one atomic action at a time, getters that re-enter from inside `Get*ID`, and resets. Memory
is relaxed: a thread may read any write that is not older than what it has seen, and views travel
only with the release store and acquire load of the flag and with the mutex, as in the source.
`ConstantsSteps` spells out what single actions do, `ConstantsLocking` holds for all executions,
`ConstantsEpochs` for those that keep the contract that `JniConstants.h` states for resets, and
`ConstantsProgress` shows that calls complete and that the contract cannot be dropped.

**The invocation instance** (`JniInvocation.cpp`), in `Invocation`: the classes, and the balance of
opened and closed libraries over all histories. `InvocationPrograms` shows that the classes do what
the histories say, so that the balance holds for the classes.

**Local references** (`scoped_local_ref.h`, `toStringArray.h`), in `LocalRefs` and `ToStringArray`:
the smart pointer as a class over a JNI environment, conservation of references over all histories,
and the array-building loop that relies on it. `LocalRefPrograms` carries conservation over from the
histories to the objects and environments.

Where the code and its documentation differ, the code is followed:

- `jarray` does not match `Ljava/lang/Object;`. The comment at `signature_checker.h:1185-1186` says
  that this was handled by the comparison with the looked-up trait; the lookup never answers
  `jarray` (`LookupSkipsJarray`).
- The rules at `jni_macros.h:108-138`, read literally, are the predicate `Documented`: a strong row
  decides as soon as one of its sides occurs, and otherwise the weak rows apply. The code departs from
  them in three families and nowhere else (`ComparesAsDocumentedIff`). `jthrowable` takes
  `Ljava/lang/String;` and `Ljava/lang/Class;`, which strong rows give to `jstring` and `jclass`.
  `jarray` takes every array, of primitive and of reference type; strong rows give each of them to an
  array type of its own, so that the row of `jarray` never applies. `jobject` does not take
  `Ljava/lang/Throwable;`, for which the table has weak rows only; the side note at lines 140-141 asks
  for the most exact type, as the code does. Each family has an instance (`ThrowableTakesString` to
  `ObjectRefusesThrowable`).
- `signature_checker.h:872` says that const and volatile do not matter. Validity strips them from the
  return type, but reification does not, so a valid function type with a cv-qualified return type
  stops at an assertion, for instance that of `QualifiedReturnStops`. This is the only assertion that
  any input reaches, and `MaybeMakeReifiedJniSignature` states the exact condition.
- `signature_checker.h:672-673` calls critical natives valid as fast and normal ones too; for function
  types the opposite holds (`CriticalAndNormalDisjoint`).

## Model

| member | source | states |
|---|---|---|
| ConstexprContainers.Equal | platform_include/nativehelper/detail/signature_checker.h:130-141 | the comparison loop decides equality of the characters in view |
| ConstexprContainers.View.Substr | platform_include/nativehelper/detail/signature_checker.h:101-107 | a substring view denotes that slice of the characters; both assertions are preconditions |
| ConstexprContainers.ConstexprVector.PushBack | platform_include/nativehelper/detail/signature_checker.h:243-248 | appends one element; the capacity assertion is the precondition |
| Grammar.ClassDescriptorForm | platform_include/nativehelper/detail/signature_checker.h:510-532 | a class name is any non-empty string without the four characters that end the scan |
| Grammar.DescriptorForms | platform_include/nativehelper/detail/signature_checker.h:427-544 | every type descriptor is a primitive letter, a class, or `[` and a type descriptor, with all characters spelled out |
| Grammar.ConcatForms | platform_include/nativehelper/detail/signature_checker.h:1373-1391 | concatenation appends the parts in order |
| Parser.ScanClassName | platform_include/nativehelper/detail/signature_checker.h:510-528 | the scan finds the first semicolon unless `(`, `)`, `[` or the end comes first |
| Parser.DescriptorLengthIff | platform_include/nativehelper/detail/signature_checker.h:427-544 | what is split off is the leading descriptor of the grammar, or `V` exactly where it is allowed |
| Parser.SplitChars | platform_include/nativehelper/detail/signature_checker.h:400-419 | token and remainder are the two halves of the characters in view |
| Parser.SignaturesWrittenOut | platform_include/nativehelper/detail/signature_checker.h:586-665 | the language of signatures, spelled out |
| Parser.ParseSingleTypeDescriptor | platform_include/nativehelper/detail/signature_checker.h:427-544 | splits off exactly the leading descriptor; token and remainder partition the view; fails only if there is none |
| Parser.ParseSignatureAsList | platform_include/nativehelper/detail/signature_checker.h:586-665 | the state machine computes ParseSignature; no push exceeds a capacity of the length minus one |
| Parser.TypeLengthIffDescriptor | platform_include/nativehelper/detail/signature_checker.h:427-544 | the prefix that is split off is the one prefix that is a type descriptor of the grammar |
| Parser.ParseIffPrint | platform_include/nativehelper/detail/signature_checker.h:586-665 | parsing yields a decomposition if and only if it is well formed and the string is its printed form |
| Parser.ParserAcceptsExactlySignatures | platform_include/nativehelper/detail/signature_checker.h:586-665 | the parser accepts exactly the language `(` T* `)` (T or `V`) |
| Parser.PrintInjective | platform_include/nativehelper/detail/signature_checker.h:586-665 | a signature has only one decomposition |
| Parser.SignaturesPrefixFree | platform_include/nativehelper/detail/signature_checker.h:641-645 | no accepted string is a proper prefix of another: leftover characters are always rejected |
| TypeTraits.NarrowRows | platform_include/nativehelper/detail/signature_checker.h:774-798 | the columns make up the macro's rows of jboolean, jbyte, jchar, jshort and jint |
| TypeTraits.WideRows | platform_include/nativehelper/detail/signature_checker.h:774-798 | the columns make up the macro's rows of jlong, jfloat, jdouble and void |
| TypeTraits.ClassRows | platform_include/nativehelper/detail/signature_checker.h:774-798 | the columns make up the macro's rows of the class types |
| TypeTraits.OtherRows | platform_include/nativehelper/detail/signature_checker.h:704-798 | the columns make up the macro's rows of jarray, jobjectArray and `JNIEnv*`, and the primary template |
| TypeTraits.NarrowArrayRows | platform_include/nativehelper/detail/signature_checker.h:774-798 | the same for the arrays of jboolean, jbyte, jchar and jshort |
| TypeTraits.WideArrayRows | platform_include/nativehelper/detail/signature_checker.h:774-798 | the same for the arrays of jint, jlong, jfloat and jdouble |
| TypeTraits.DescriptorInGrammar | platform_include/nativehelper/detail/signature_checker.h:774-798 | the descriptors in the trait table are in the grammar, except that `JNIEnv*` has none |
| TypeTraits.DescriptorsDiffer | platform_include/nativehelper/detail/signature_checker.h:774-798 | jobject and jarray are the only two types that share a descriptor |
| TypeTraits.ReifyInjective | platform_include/nativehelper/detail/signature_checker.h:748-755 | equality of traits is equality of types |
| TypeTraits.LookupSkipsJarray | platform_include/nativehelper/detail/signature_checker.h:803-811 | the exact part of the lookup never answers jarray |
| TypeTraits.SimilarToOwnDescriptor | platform_include/nativehelper/detail/signature_checker.h:803-811 | what looking up the canonical descriptor of a type finds: the type itself, but jobject for jarray and nothing for `JNIEnv*` |
| TypeTraits.SimilarCases | platform_include/nativehelper/detail/signature_checker.h:803-829 | an inexact answer is jobject for a class or jobjectArray for an array of references |
| TypeTraits.ParsedDescriptorHasSimilar | platform_include/nativehelper/detail/signature_checker.h:803-829 | the lookup answers for every descriptor that the parser yields |
| FunctionTypes.ValidParameterIff | platform_include/nativehelper/detail/signature_checker.h:832-910 | a parameter is valid exactly where the documented form allows its type |
| FunctionTypes.ValidReturnIff | platform_include/nativehelper/detail/signature_checker.h:843-910 | a return type is valid exactly if it is void or a Java type, for critical natives a primitive one |
| FunctionTypes.ValidArgumentsIff | platform_include/nativehelper/detail/signature_checker.h:929-952 | the template recursion checks every parameter at its position |
| FunctionTypes.ValidIffDocumentedForm | platform_include/nativehelper/detail/signature_checker.h:954-966 | exactly the two forms of jni_macros.h:77-86 are valid |
| FunctionTypes.JavaArgsForm | platform_include/nativehelper/detail/signature_checker.h:1123-1137 | critical natives list all parameters, others all but the first two |
| FunctionTypes.ValidComponentsHaveTraits | platform_include/nativehelper/detail/signature_checker.h:1088-1096 | no component of a valid function type is without a trait |
| FunctionTypes.MaybeMakeReifiedJniSignature | platform_include/nativehelper/detail/signature_checker.h:1109-1140 | yields the traits behind the prefix; an assertion stops it if and only if the type is valid and its return type cv-qualified |
| FunctionTypes.ReifyArguments | platform_include/nativehelper/detail/signature_checker.h:1123-1137 | the push loop skips the prefix, keeps the order and stays within the capacity |
| FunctionTypes.CriticalIffPrimitiveNormal | platform_include/nativehelper/detail/signature_checker.h:832-966 | valid as critical if and only if all types are primitive and the type with env and receiver prepended is valid as normal |
| FunctionTypes.CriticalAndNormalDisjoint | platform_include/nativehelper/detail/signature_checker.h:832-966 | no function type is valid both as critical and as normal |
| FunctionTypes.FastIffNormal | platform_include/nativehelper/detail/signature_checker.h:832-966 | fast and normal validity agree |
| Matcher.NotFinalSimilarStart | platform_include/nativehelper/detail/signature_checker.h:1198-1214 | the assertion behind the last branch of the comparison is unreachable, for every string |
| Matcher.CompareIffAccepts | platform_include/nativehelper/detail/signature_checker.h:1151-1215 | on parsed descriptors the comparison decides which descriptors each C++ type stands for |
| Matcher.ComparisonForms | platform_include/nativehelper/detail/signature_checker.h:1151-1215 | the comparison for each C++ type, in terms of the descriptor alone |
| Matcher.StrongRowsListed | platform_include/nativehelper/jni_macros.h:108-134 | the strong rows of the documented rules, one by one |
| Matcher.DocumentedForms | platform_include/nativehelper/jni_macros.h:126-138 | how strong and weak rows decide |
| Matcher.ComparesAsDocumentedIff | platform_include/nativehelper/jni_macros.h:108-138 | the comparison agrees with the documented rules if and only if the type and descriptor are outside of three families |
| Matcher.MatchesAsDocumented | platform_include/nativehelper/jni_macros.h:94-138 | a signature without departing positions matches if and only if the documented rules match it |
| Matcher.DepartureShows | platform_include/nativehelper/detail/signature_checker.h:1168-1210 | every departing type and descriptor make a function type and a string that match contrary to the documented rules |
| Matcher.DiffersForms | platform_include/nativehelper/detail/signature_checker.h:1222-1267 | the function type and the string of an instance, spelled out |
| Matcher.ThrowableTakesString | platform_include/nativehelper/detail/signature_checker.h:1171-1175 | a jthrowable parameter matches `Ljava/lang/String;`, contrary to the documented rules |
| Matcher.ThrowableTakesClass | platform_include/nativehelper/detail/signature_checker.h:1171-1175 | a jthrowable parameter matches `Ljava/lang/Class;`, contrary to the documented rules |
| Matcher.ArrayTakesPrimitiveArray | platform_include/nativehelper/detail/signature_checker.h:1180-1183 | a jarray parameter matches `[I`, contrary to the documented rules |
| Matcher.ArrayTakesReferenceArray | platform_include/nativehelper/detail/signature_checker.h:1180-1183 | a jarray parameter matches `[Ljava/lang/Object;`, contrary to the documented rules |
| Matcher.ObjectRefusesThrowable | platform_include/nativehelper/detail/signature_checker.h:1207-1209 | a jobject parameter does not match `Ljava/lang/Throwable;`, contrary to the documented rules |
| Matcher.QualifiedReturnStops | platform_include/nativehelper/detail/signature_checker.h:1088-1096 | a critical native that returns `const jint` is valid and stops the matcher at an assertion |
| Matcher.CompareArguments | platform_include/nativehelper/detail/signature_checker.h:1257-1263 | the loop decides whether all parameters compare equal |
| Matcher.CompareSignatures | platform_include/nativehelper/detail/signature_checker.h:1248-1266 | decides whether the counts agree and the result and all parameters compare equal |
| Matcher.MatchJniDescriptorWithFunctionType | platform_include/nativehelper/detail/signature_checker.h:1222-1267 | computes MatchResult for every function type and every string; an assertion stops it only for valid types with a cv-qualified return type, and other invalid types and strings do not match |
| Matcher.MatchResultIff | platform_include/nativehelper/detail/signature_checker.h:1222-1267 | when an assertion stops the matcher, and what matches, for all function types and strings |
| Matcher.PassingForms | platform_include/nativehelper/detail/signature_checker.h:774-798 | which descriptors and types are passed alike, one by one |
| Matcher.MatchIffDenotes | platform_include/nativehelper/detail/signature_checker.h:1222-1267 | a string matches if and only if it prints a signature whose components the types stand for |
| Matcher.MatchAgreesOnPassing | platform_include/nativehelper/detail/signature_checker.h:1222-1267 | after a match, arities agree and each letter meets its own C type, each class or array a reference, and `V` void |
| Matcher.CriticalMatchLength | platform_include/nativehelper/detail/signature_checker.h:1222-1267 | a critical native matches only strings of its parameter count plus three characters |
| Matcher.CriticalMatchesLikeNormal | platform_include/nativehelper/detail/signature_checker.h:1109-1140 | a critical native accepts what the normal native with a receiver accepts |
| Matcher.FastMatchesLikeNormal | platform_include/nativehelper/detail/signature_checker.h:1109-1140 | fast and normal natives accept the same strings |
| Inference.InferenceResultIff | platform_include/nativehelper/detail/signature_checker.h:1282-1314 | when an assertion stops inference, that invalid types infer nothing, and which descriptors others get |
| Inference.NothingInferredIff | platform_include/nativehelper/detail/signature_checker.h:1293-1308 | a valid type infers nothing exactly when a component is jobject, jthrowable, jarray or jobjectArray |
| Inference.FromFunctionType | platform_include/nativehelper/detail/signature_checker.h:1282-1314 | yields the canonical descriptors exactly when all components are final, and nothing for invalid types |
| Inference.FinalDescriptors | platform_include/nativehelper/detail/signature_checker.h:1304-1311 | the loop stops at the first type that is not final and otherwise collects every descriptor |
| Inference.CalculateStringSize | platform_include/nativehelper/detail/signature_checker.h:1321-1348 | the accumulated size is the length of the printed signature, and 0 when there is none |
| Inference.GetString | platform_include/nativehelper/detail/signature_checker.h:1358-1398 | the buffer holds the printed signature and a NUL, or the NUL alone when there is none; all writes are inside and the final position is the calculated size |
| Inference.WriteSignature | platform_include/nativehelper/detail/signature_checker.h:1373-1391 | the writes make up the printed signature |
| Inference.InferredHasNoNul | platform_include/nativehelper/detail/signature_checker.h:1393-1397 | the terminator is the only NUL in the buffer |
| Inference.MatchIffInferred | platform_include/nativehelper/detail/signature_checker.h:1222-1398 | when a signature is inferred, a string matches if and only if it is the inferred one |
| Inference.InferredIffUniqueMatch | platform_include/nativehelper/detail/signature_checker.h:1269-1314 | inference succeeds if and only if exactly one string matches |
| Inference.AmbiguousHasTwoMatches | platform_include/nativehelper/detail/signature_checker.h:1297-1308 | for a type with a component that is not final two different strings match |
| Inference.ExampleMatches | platform_include/nativehelper/detail/signature_checker.h:1222-1267 | every valid function type matches some string |
| Inference.InferredParsesBack | platform_include/nativehelper/detail/signature_checker.h:1358-1398 | parsing the inferred string gives the canonical descriptors back |
| Inference.CriticalInfersLikeNormal | platform_include/nativehelper/detail/signature_checker.h:1282-1314 | a critical native infers what the normal native with a receiver infers |
| Inference.CriticalAlwaysInferred | platform_include/nativehelper/detail/signature_checker.h:1282-1314 | a valid critical native is always inferable unless its return type is cv-qualified |
| Inference.FastInfersLikeNormal | platform_include/nativehelper/detail/signature_checker.h:1282-1314 | fast and normal natives infer the same |
| ConstantsSteps.CallStartsGetter | JniConstants.cpp:111-136 | a call runs the getter that was called |
| ConstantsSteps.FlagUpAvoidsMutex | JniConstants.cpp:235-239 | with the flag read up, a class getter goes to its slot without the mutex and without touching shared state |
| ConstantsSteps.RecheckAvoidsInitialization | JniConstants.cpp:242-245 | with the flag read up under the mutex, nothing is initialized again |
| ConstantsSteps.CachedIdAvoidsLookup | JniConstants.cpp:136-233 | an id getter that reads its slot set makes no call, and otherwise calls the getter of its own class |
| ConstantsSteps.InitializedFromOwnEnv | JniConstants.cpp:251-256 | each class comes from the VM of the initializing thread's env, in the order of the source |
| ConstantsSteps.IdOfOwnMember | JniConstants.cpp:136-233 | the id is that of the getter's own member in the class given, and goes to its own slot |
| ConstantsSteps.ReturnsWhatIsRead | JniConstants.cpp:111-233 | what is read last from the own slot is returned, to the waiting id getter if there is one |
| ConstantsSteps.ResetInOrder | JniConstants.cpp:268-286 | lock, the seventeen slots in order, the flag, unlock, and then the creation of the VM |
| ConstantsSteps.ReadableWrites | JniConstants.cpp:111-257 | a read may return any write not seen overwritten, and only locking waits for others |
| ConstantsSteps.OnlyAcquiresTakeOver | JniConstants.cpp:235-287 | only the acquiring load and the mutex transfer a view |
| ConstantsSteps.ReleasesHandOn | JniConstants.cpp:256-286 | storing the flag and unlocking hand the view on |
| ConstantsSteps.EnabledForms | JniConstants.cpp:52-70 | getters may be called by idle threads and from inside Get*ID |
| ConstantsSteps.ContractForms | JniConstants.h:78-83 | the reset contract, spelled out |
| ConstantsSteps.RunsBegin | JniConstants.cpp:39-89 | executions begin with any number of threads and nothing cached |
| ConstantsSteps.RunsGoOn | JniConstants.cpp:111-287 | executions go on with any possible step |
| ConstantsSteps.RaisedAfterClasses | JniConstants.cpp:251-256 | in every execution, the flag is raised only when all five classes are set |
| ConstantsSteps.LoweredAfterClearing | JniConstants.cpp:268-286 | under the contract, the flag is lowered only when all seventeen slots are cleared |
| ConstantsLocking.HolderIsInside | JniConstants.cpp:241-287 | in every execution, the holder of the mutex is the one thread between lock and unlock |
| ConstantsLocking.NoReferenceOverwritten | JniConstants.cpp:39-42 | in every execution, a class slot is written only over null or with null |
| ConstantsLocking.OnlyHolderWritesProtected | JniConstants.cpp:241-287 | in every execution, class slots and flag are written only by the thread that holds the mutex |
| ConstantsLocking.LockingHoldsInRuns | JniConstants.cpp:235-287 | mutual exclusion, and flag and class slots as expected at every program point, in every execution |
| ConstantsLocking.OneReferencePerReset | JniConstants.cpp:39-42 | between two global references made for one class its slot was cleared by a reset |
| ConstantsLocking.FreeMutexFlagIffAllSet | JniConstants.cpp:247-257 | while the mutex is free, the flag is up if and only if all five classes are set |
| ConstantsLocking.HolderCanAct | JniConstants.cpp:52-64 | the holder of the mutex is never kept waiting, so re-entrant calls do not lock themselves out |
| ConstantsEpochs.LoadFlagCurrent | JniConstants.cpp:236-239 | a thread that takes the unlocked fast path has seen every class slot set since the last reset |
| ConstantsEpochs.ResetEnds | JniInvocation.cpp:285-291 | when a reset completes, the latest writes to all slots and to the flag are the cleared ones, and the new VM starts with them in view |
| ConstantsEpochs.EpochHoldsInRuns | JniConstants.h:78-83 | under the reset contract, everything cached or in flight belongs to the current VM |
| ConstantsEpochs.GettersReturnCanonical | JniConstants.cpp:111-233 | every getter returns the reference of the current VM, or the id looked up in the declaring class of that VM, on every path and for every interleaving |
| ConstantsEpochs.LookedUpInItsClass | JniConstants.cpp:136-233 | every id is looked up in the class that declares the member, taken from the current VM |
| ConstantsEpochs.NoStateCrossesVms | JniConstants.cpp:259-287 | no slot holds anything of an earlier VM, and a slot once set stays set until the next reset |
| ConstantsEpochs.ClassReadsAreNotRaces | JniConstants.cpp:111-134 | the unlocked plain read of a class slot can see the latest write only |
| ConstantsProgress.ActLowersRank | JniConstants.cpp:136-287 | every action brings the acting getter or reset closer to its end, whatever other threads do |
| ConstantsProgress.ActionsBounded | JniConstants.cpp:136-287 | the actions still possible without new calls are bounded at every point of every run |
| ConstantsProgress.NoDeadlock | JniConstants.cpp:241-257 | in every execution, while a call or reset is incomplete some thread can act, unless the call is a lookup in a null class |
| ConstantsProgress.ContractPreventsDeadlock | JniConstants.h:78-83 | under the reset contract there is no lookup in a null class, hence no deadlock at all |
| ConstantsProgress.ContractIsNeeded | JniConstants.h:78-83 | a run that resets during a call in which the getter returns null |
| Invocation.GetLibrary | JniInvocation.cpp:167-207 | a device that is not debuggable loads the fallback only; otherwise a given library is taken as it is, and without one the system property, where a device has it, or the fallback |
| Invocation.JniInvocationImpl.Init | JniInvocation.cpp:209-250 | true if and only if the named library, or failing that the fallback, opens and exports the three symbols; handle, entry points, opens and closes accordingly |
| Invocation.JniInvocationImpl.FindSymbol | JniInvocation.cpp:264-273 | a missing symbol closes the library and gives up the handle |
| Invocation.HandleAfterInit | JniInvocation.cpp:209-250 | the handle left, from what opens and what is exported |
| Invocation.EntryPointsAfterInit | JniInvocation.cpp:237-249 | the entry points left, from what is exported; none is looked up behind a missing one |
| Invocation.Process.GetJniInvocation | JniInvocation.cpp:275-279 | fatal while no instance lives |
| Invocation.Process.Create | JniInvocation.cpp:149-156 | fatal while an instance lives; otherwise a fresh instance becomes the designated one |
| Invocation.Process.Destroy | JniInvocation.cpp:158-163 | clears the static pointer and closes the library if one is held |
| Invocation.HistoriesGoOn | JniInvocation.cpp:147-163 | histories contain every operation on existing instances |
| Invocation.LibrariesBalance | JniInvocation.cpp:147-163 | the pointer designates the one live instance; open libraries are its own and one per Init repeated after success |
| Invocation.BalancedIffNeverOverwritten | JniInvocation.cpp:209-250 | no library leaks if and only if Init is never repeated after success |
| InvocationPrograms.Perform | JniInvocation.cpp:147-273 | the classes carry out every operation as the histories say, and abort exactly where they say |
| InvocationPrograms.Run | JniInvocation.cpp:147-273 | after any operations the static pointer designates the only instance, and the loader's balance is its library and one per overwritten one |
| LocalRefs.ScopedLocalRef.Reset | header_only_include/nativehelper/scoped_local_ref.h:42-49 | deletes the old reference exactly if it is not null and not the new one |
| LocalRefs.ScopedLocalRef.MoveAssign | header_only_include/nativehelper/scoped_local_ref.h:68-72 | takes reference and env over, deletes through the old env, and is harmless on itself |
| LocalRefs.ScopedLocalRef.Move | header_only_include/nativehelper/scoped_local_ref.h:32-33 | takes the reference over and leaves the source empty |
| LocalRefs.ScopedLocalRef.Release | header_only_include/nativehelper/scoped_local_ref.h:51-55 | hands the reference out without deleting it |
| LocalRefs.ScopedLocalRef.Destroy | header_only_include/nativehelper/scoped_local_ref.h:38-40 | deletes what is still owned |
| LocalRefs.ConservedInHistories | header_only_include/nativehelper/scoped_local_ref.h:29-72 | every adopted reference is owned by one object, released, or deleted once through its env |
| LocalRefs.EachInOnePlace | header_only_include/nativehelper/scoped_local_ref.h:29-72 | the same for one reference, spelled out |
| LocalRefs.HistoriesGoOn | header_only_include/nativehelper/scoped_local_ref.h:29-72 | histories contain every operation on existing objects and adoptable references |
| LocalRefs.NothingLeaks | header_only_include/nativehelper/scoped_local_ref.h:38-55 | once all objects are gone, every reference was either released or deleted exactly once |
| LocalRefs.SelfMoveChangesNothing | header_only_include/nativehelper/scoped_local_ref.h:68-72 | assigning an object to itself changes nothing and deletes nothing |
| LocalRefPrograms.Perform | header_only_include/nativehelper/scoped_local_ref.h:29-72 | the class carries out every operation as the histories say |
| LocalRefPrograms.ConservedWhenRepresented | header_only_include/nativehelper/scoped_local_ref.h:29-72 | objects and environments described by a conserving history delete nothing twice, through a wrong env or while owned |
| LocalRefPrograms.Run | header_only_include/nativehelper/scoped_local_ref.h:29-72 | any program of constructions, moves, resets, releases and destructions keeps to that |
| ToStringArray.AddString | include/nativehelper/toStringArray.h:35-42 | stores the string, or leaves the arrays alone on either failure, and in each case leaves no local reference behind |
| ToStringArray.ToStringArray | include/nativehelper/toStringArray.h:28-45 | an array of the visitor's strings, or null with an exception pending; which reference is left behind then, and what it holds; never more than two extra local references |
| ToStringArray.DeliversForms | include/nativehelper/toStringArray.h:28-45 | the outcomes of toStringArray, one by one |
| ToStringArray.VectorToStringArray | include/nativehelper/toStringArray.h:47-49 | the same for the strings of a vector |
| ToStringArray.NullTerminatedToStringArray | include/nativehelper/toStringArray.h:51-55 | delivers what the vector overload delivers on the strings before the null pointer |

## Left out

- ConstantsCache.Apply: the globals of `JniConstants.cpp` are histories of writes in a value, not fields updated in place, because a Dafny method runs to completion and would hide the interleavings.
- ConstantsCache.Perform: writes to one location are ordered as they are executed; C++ could also place a racing relaxed write earlier. Racing writes only ever store the same id.
- ConstantsCache.OutcomeOf: `FindClass` and `NewGlobalRef` succeed and do not call back into the getters; a class or member that is not found aborts the process in the source.
- Accesses to the id slots, data races by the letter of the C++ standard, are modelled as relaxed atomic accesses.
- `jniUninitializeConstants` without the creation of a VM; it performs the same writes.
- Deleting global references when a VM shuts down: the source does not do it, and no freedom from leaks of global references is claimed.
- Character access at the end of a view, stream output, compile-time linkage of the inferred string, and the `JNINativeMethod` macros.
- Parameter types with top-level const or volatile, which C++ drops from function types.
- `dlopen`, `dlsym` and system properties are answered by an arbitrary oracle; the Windows variants are not modelled.
- The virtual machine behind a JNI environment: its failures are arbitrary, and no JNI call but those of `toStringArray.h` and `scoped_local_ref.h` is modelled.
- `JNIHelp.cpp`, `jni.h` and the other scoped helpers: formatting, logging, forwarding, and the same ownership argument in simpler form.
