# Verified models of DuckDB algorithms

This project models eight self-contained algorithms of the DuckDB repository in Dafny and proves what they
promise.  Each is written in the form of its source: loops and objects that are updated in place are methods and
classes, proved against functions whose laws are lemmas.

| topic | modules |
|---|---|
| Batched evaluation of `list_transform` and `list_filter` | `LambdaExecution` |
| The serialization compiler: versioned schemas, the generated code and its runtime | `SerializationCode`, `SerializationRuntime`, `SerializationRoundTrip`, `SerializationTheorems`, `SerializationEntries`, `SerializationCompiler` |
| The compiler of Equals, Hash and Copy for parsed expressions | `ExpressionUtil`, `ExpressionUtilLaws`, `ExpressionUtilHashLaw`, `ExpressionUtilForms`, `ExpressionUtilCompiler` |
| The benchmark runner, its watchdog thread and the parser benchmarks | `ParserBenchmark`, `BenchmarkRunner` |
| Removing inherited entries from skip lists | `SkipTestCleanup`, `SkipTestMeaning` |
| Syncing out-of-tree extensions with a git tag and patch files | `ExtensionSync`, `ExtensionSyncMeaning`, `Text` |
| Printing and re-reading the table of extension entries | `ExtensionTable`, `ExtensionTableMaps`, `ExtensionTableEntries`, `ExtensionTableText` |
| Time zone aware timestamp arithmetic | `IcuCalendar`, `IcuDateAdd`, `IcuDateMonths`, `IcuDateSubtract`, `IcuDateTrunc`, `IcuDateDiff`, `IcuMeaning`, `IcuListRange` |

`Wrappers` holds the shared `Option` and `Result` types, `Selections` the elements picked from a list in order.
`dafny verify dfyconfig.toml` checks everything.

What the outside world contributes is a parameter: the lambda, the outcome of every parse and the schedule of the
two threads, the remote repository and whether a patch applies, the hash function of the runtime, the length of
months, and the estimate from which a field difference starts.

## Where the code differs from what it promises

Each of these is proved, with the exact condition under which the promise is kept.

- Subtraction of timestamps is off by one millisecond when the end lies in the first millisecond after the epoch and
  the microseconds are out of order: the borrow is taken back by a division that truncates toward zero.  For an end
  before the epoch that is not a whole millisecond, the microseconds of the result are negative when the time
  between the timestamps falls short of a whole number of days by no more than their microseconds make up.
- Cleaning a config on an inheritance cycle removes tests that it inherits only from itself.  It keeps the meaning of
  every config exactly if other configs above have all its tests.
- The check of an extension checkout compares subject lines only.  A default update puts back the work that it drops
  exactly if no commit on top of the tag is blank and each still has the diff of its patch file; a commit without a
  message, or a patch commit amended under its own subject, is lost.  An update that cannot reach the remote has
  already stripped the patch commits, and the next sync refuses what it left, unless all it stripped was blank.  A
  patch whose name starts with white space makes a sync produce a checkout that the next sync refuses.
- `deserialize_default` has no effect on members that are read straight into a field.
- Equal expressions can hash differently when a member is a map, or is iterated but not compared.  Two separate,
  identical trees with a null subquery are not equal; one object with a null subquery equals itself only if the
  subquery lies behind a pointer that is compared by identity.
- An overload table without rows is printed, but cannot be read back.  The comment in `parse_records` says that
  quotes are kept; the code drops them.  Parameter types with a comma split into several parameters, and
  white space at the end of a return type is lost.
- A benchmark run can be interrupted before it has begun, because its watchdog is started first.
- Adding an interval of months does not keep the order of timestamps whose days are both cut to the end of a month,
  and subtracting it again leads back only if the month in between has the day.
- `date_diff` in hours fails beyond 2^31 hours, although its result has 64 bits and timestamps can be further apart.

## Model

| member | source | states |
|---|---|---|
| `LambdaExecution.ExecuteLambda` | extension/core_functions/lambda_functions.cpp:276-372 | For every batch size from 1 on, the result refines evaluating the lambda row by row. Position by position: each element of each valid list is handed over once and in order, with index + offset and, for each argument that is no lambda, its own row's value or the constant; list_transform puts the lambda's value in its place and keeps lengths; list_filter keeps exactly the elements for which the lambda is true, NULL not being true, and each entry spans those of its own list |
| `LambdaExecution.ResultIsUnique` | extension/core_functions/lambda_functions.cpp:119-167 | The refinement leaves no freedom for a filtered result, so results of different batch sizes are equal |
| `LambdaExecution.ListFilterInfo.SkipEmptyLists` | extension/core_functions/lambda_functions.cpp:126-131 | Empty and NULL lists at the cursor get length 0 at the current offset, and the cursor invariant is kept |
| `LambdaExecution.ListFilterInfo.Consume` | extension/core_functions/lambda_functions.cpp:125-155 | One element moves the cursor by one: consumed elements = lengths of the finished lists + source length of the current one |
| `LambdaExecution.ListFilterInfo.Traverse` | extension/core_functions/lambda_functions.cpp:119-163 | A whole batch advances the cursor over its rows, with the row index in bounds at every access, and selects exactly the kept elements |
| `LambdaExecution.ListFilterInfo.PushLength` | extension/core_functions/lambda_functions.cpp:110-117 | Announcing a list leaves every entry before the cursor as it was |
| `LambdaExecution.LambdaExecution.ExecuteExpression` | extension/core_functions/lambda_functions.cpp:194-221 | The lambda sees, position by position, the index, the element and the captured values of the buffered rows, although constant columns are referenced and others sliced |
| `LambdaExecution.LambdaExecution.AppendResult` | extension/core_functions/lambda_functions.cpp:97-100 | Appending the evaluated batch extends the child by the image of exactly the pending rows |
| `LambdaExecution.LambdaExecution.PushElement` | extension/core_functions/lambda_functions.cpp:327-351 | With room left in the batch, an element's index, child position and captured row are buffered for its own slot, and what was produced so far grows by exactly that row |
| `LambdaExecution.LambdaExecution.ExecuteRow` | extension/core_functions/lambda_functions.cpp:303-352 | A row adds exactly its list: a full batch is flushed before the element that does not fit, wherever in the list that is; a NULL row adds nothing and becomes NULL |
| `LambdaExecution.GetMutableColumnInfo` | extension/core_functions/lambda_functions.cpp:183-192 | Exactly the columns that are not constant are selected per element |
| `LambdaExecution.FlattenImages` | extension/core_functions/lambda_functions.cpp:276-372 | Mapping or filtering list by list is mapping or filtering the concatenation |
| `SerializationRoundTrip.WriteMeaning` | scripts/generate_serialization.py:626-695 | The compiled write statement writes a member exactly when its status, its version gate, serialize_until, required_until or serialize_condition, and its default say so |
| `SerializationRoundTrip.SerializeMeaning` | scripts/generate_serialization.py:709-811 | The Serialize chain writes the members of all classes on the path in order, base class first |
| `SerializationTheorems.RoundTrip` | scripts/generate_serialization.py:836-1001 | For every schema path with distinct ids and names, object and storage version: reading what was written succeeds if and only if every member that the reader requires was written; it then dispatches down the same path and delivers for each member the written value, or its default |
| `SerializationEntries.EntryRoundTrip` | scripts/generate_serialization.py:592-695 | In terms of the schema entry: what a class puts into the result comes back with its written value, or else with deserialize_default if it is read into a local and has one, with the entry's default, or with that of its type |
| `SerializationEntries.EntryWrites` | scripts/generate_serialization.py:612-695 | An entry is written exactly when its status, version, serialize_until, required_until and serialize_condition allow it and its value is not the entry's default, or that of its type without one |
| `SerializationEntries.EntryReads` | scripts/generate_serialization.py:592-624 | A read that finds nothing yields deserialize_default for a local, the default of the entry, or that of its type; it fails without one and skips a deleted member |
| `SerializationEntries.DeliversMeaning` | scripts/generate_serialization.py:836-1001 | Exactly which members the Deserialize of a class puts into the result: method and constructor arguments that are not deleted, and other existing members unless skip_assign keeps them out |
| `SerializationEntries.WiredOrder` | scripts/generate_serialization.py:903-957 | A class without children writes and reads its members in schema order, but for those with serialize_skip |
| `SerializationEntries.ConstructorArgOrder` | scripts/generate_serialization.py:841-889 | Constructor arguments come in the order of the entries, each member's local before the base parameter of the same name, none twice and none missing |
| `SerializationEntries.MethodArgOrder` | scripts/generate_serialization.py:877-889 | A constructor method takes the members that are not deleted, in schema order |
| `SerializationEntries.ClassEffects` | scripts/generate_serialization.py:903-983 | A class without children assigns exactly the existing members that it had to read before the constructor call and does not hand over, and sets and unsets exactly the parameters that it names |
| `SerializationEntries.BaseEffects` | scripts/generate_serialization.py:709-811 | A base class assigns exactly the existing members that are neither its tag, nor parameters, nor method arguments, nor kept out by skip_assign, and sets and unsets exactly its parameters |
| `SerializationEntries.PathMeaning` | scripts/generate_serialization.py:709-811 | What the theorems call a path: base classes whose tags select the next class, and a class without children at the end |
| `SerializationEntries.ReadToTheEnd` | src/common/serializer/binary_deserializer.cpp:35-42 | An object is read only if nothing is left of the stream |
| `SerializationTheorems.ReadBackValue` | scripts/generate_serialization.py:236-272 | Without deserialize_default a member comes back unchanged if it was written or equal to its default, and as its default if its gate suppressed it |
| `SerializationTheorems.TolerantPath` | scripts/generate_serialization.py:401-489 | A default on every version-gated or serialize_until member is enough for every version to be readable |
| `SerializationTheorems.RequiredUntilServesAll` | scripts/generate_serialization.py:626-695 | A member with required_until comes back unchanged for every version: older versions always get it, newer ones leave it out only when it is the default |
| `SerializationTheorems.ServedMeaning` | scripts/generate_serialization.py:626-695 | Every storage version can read a member of a given object if and only if it is deleted, has a default, or is written by all of them: from the first version, by required_until, or because its serialize_condition holds; read into a local, deserialize_default is enough as well |
| `SerializationTheorems.ReadByEveryVersion` | scripts/generate_serialization.py:836-1001 | For every schema path and object: the object can be read back from every storage version if and only if each of its members is served in that sense |
| `SerializationTheorems.DeserializeDefaultNeedsLocal` | scripts/generate_serialization.py:592-624 | deserialize_default only works where a member is read into a local: on any path, an object whose only missing member relies on it can be read back if and only if the constructor, a method or skip_assign wants that member in a local, or it belongs to a base class |
| `SerializationTheorems.ReadOrder` | scripts/generate_serialization.py:836-1001 | Deserialize reads exactly the ids of the members that Serialize writes, each once and in the same order, whichever members the constructor takes |
| `SerializationTheorems.CheckMembers` | scripts/generate_serialization.py:1004-1022 | The scan of one class accepts if and only if no name or id repeats or is already taken, and returns the extended sets |
| `SerializationTheorems.CheckChildrenForDuplicateMembers` | scripts/generate_serialization.py:1004-1022 | The hierarchy check passes if and only if no descent from the node repeats a name or an id |
| `SerializationTheorems.CheckedRoundTrip` | scripts/generate_serialization.py:1004-1022 | What the check is for: a checked hierarchy with tolerant members round-trips every object, for every version |
| `SerializationCompiler.ScanConstructor` | scripts/generate_serialization.py:841-889 | Constructor entries resolve if and only if each names a member or a base parameter; the arguments and the prefix of members to read first are those of the specification |
| `SerializationCompiler.GenerateBaseClassCode` | scripts/generate_serialization.py:709-811 | Base class code is emitted if and only if every member can be read, and is the specified write and read code |
| `SerializationCompiler.GenerateClassCode` | scripts/generate_serialization.py:836-1001 | Class code is emitted if and only if the constructor resolves and every member can be read, and is the specified write and read code |
| `SerializationCompiler.ReadRest` | scripts/generate_serialization.py:913-957 | The members behind the constructor prefix are read into fields or locals, or set from the constructor, exactly as specified |
| `ExpressionUtilLaws.Reflexive` | scripts/generate_util.py:165-230 | Two separate, structurally identical trees are equal if and only if no compared subquery in them is null |
| `ExpressionUtilLaws.ReflexiveObject` | src/parser/parsed_expression.cpp:50-58 | One object compared with itself is equal if and only if no compared subquery is null that the comparison reaches without passing an expression or order modifier pointer, which are compared by identity first |
| `ExpressionUtilLaws.SelfEqualsIsWeaker` | src/parser/parsed_expression.cpp:50-58 | The comparison by identity only helps: whatever equals a separate, identical tree equals itself |
| `ExpressionUtilLaws.NullQueryBehindPointer` | src/parser/parsed_expression.cpp:50-58 | An expression that holds a null subquery behind a pointer equals itself, but not its copy |
| `ExpressionUtilLaws.Symmetric` | scripts/generate_util.py:244-271 | Equals is symmetric on trees of any schema whose base compares the class, maps included |
| `ExpressionUtilLaws.KeysAgree` | scripts/generate_util.py:130-147 | Equal size and key inclusion give equal key sets, so a one-sided map comparison is two-sided |
| `ExpressionUtilLaws.Transitive` | scripts/generate_util.py:244-271 | Equals is transitive on trees of any schema whose base compares the class |
| `ExpressionUtilForms.EqualForms` | scripts/generate_util.py:68-271 | Two trees are equal if and only if no compared subquery is null and they have the same canonical form: scalars, names and subqueries normalized, members that do not count blanked, maps without an order, and everything else, argument names and orders included, in its place |
| `ExpressionUtilLaws.CopyEquals` | scripts/generate_util.py:279-384 | A copy equals its original if and only if no compared subquery in the original is null |
| `ExpressionUtilLaws.CopyIsSame` | scripts/generate_util.py:279-384 | When no member is left out, the copy is the same tree at every depth |
| `ExpressionUtilLaws.CopyLaws` | scripts/generate_util.py:279-384 | Copy throws if and only if it reaches a transient class; what it returns otherwise equals the original unless a compared subquery is null, and is the same tree when no member is left out |
| `ExpressionUtilForms.CopyIsCopy` | scripts/generate_util.py:279-384 | The copy is a tree of the same classes and types in which every member holds what the original holds, with a copy of each child in its place, or is fresh if it is deleted, read only or a view of another member |
| `ExpressionUtilLaws.EqualHash` | scripts/generate_util.py:413-508 | Equal expressions hash alike when every iterated member is compared and none is a map |
| `ExpressionUtilHashLaw.HashLawCondition` | scripts/generate_util.py:413-531 | And only then: for a schema whose classes have instances, equal expressions hash alike under every runtime if and only if every iterated member is compared and none is a map |
| `ExpressionUtilHashLaw.MapOrderBreaksLaw` | scripts/generate_util.py:130-147 | Two iteration orders of one map compare equal but hash differently |
| `ExpressionUtilHashLaw.UncomparedChildBreaksLaw` | scripts/generate_util.py:516-531 | A child in a member with equals_skip still reaches the hash and breaks the law |
| `ExpressionUtilForms.HashIsTreeHash` | scripts/generate_util.py:413-531 | The hash combines, from left to right, class, type, the hashes of all children and then the values of the members that count |
| `ExpressionUtilCompiler.Generate` | scripts/generate_util.py:256-271 | The generator loop emits one step for each selected member, in order |
| `ExpressionUtilCompiler.EqualsCode` | scripts/generate_util.py:244-271 | Running the emitted comparisons with their early returns decides Equals |
| `ExpressionUtilCompiler.CopyCode` | scripts/generate_util.py:361-384 | Running the emitted assignments on a default-constructed object gives the fields of the copy |
| `ExpressionUtilCompiler.HashCode` | scripts/generate_util.py:477-508 | Running the base hash and the emitted statements computes Hash; a class without statements keeps the base hash |
| `ParserBenchmark.BenchmarkState.Run` | benchmark/micro/parser.cpp:62-82 | The nested loops stop at the first query at which the flag is set or an exception leaves Run, with the counters of exactly the parses before it |
| `ParserBenchmark.BenchmarkState.Verify` | benchmark/micro/parser.cpp:89-99 | On the counters of a run without exceptions, Verify accepts if and only if the run parsed every query of every iteration and each parse did what the workload expects |
| `ParserBenchmark.CompleteRunVerifies` | benchmark/micro/parser.cpp:89-99 | After a complete run Verify accepts if and only if every single parse did what the workload expects |
| `ParserBenchmark.ShortRunFailsVerify` | benchmark/micro/parser.cpp:89-99 | A run that stopped early never passes Verify, so only TIMEOUT keeps it from being reported INCORRECT |
| `ParserBenchmark.EmptyRunVerifies` | benchmark/micro/parser.cpp:89-99 | A workload that expects no statements would accept a run that parsed nothing |
| `ParserBenchmark.GrammarVerifyAgrees` | benchmark/micro/parser.cpp:269-294 | The grammar benchmark is a workload of its own: its Verify, which only compares a count, accepts exactly the runs that the workload's does, so the protocol's results hold for it |
| `ParserBenchmark.RunIsDetermined` | benchmark/micro/parser.cpp:62-82 | The flag values and parses that Run meets leave one way for it to end, after one number of parses |
| `ParserBenchmark.RunMeaning` | benchmark/micro/parser.cpp:62-82 | Run ends at the first query before which the flag is set, or whose parse raises what is no ParserException, or a ParserException in a workload that is not malformed; and returns if there is none |
| `ParserBenchmark.AcceptedMeaning` | benchmark/micro/parser.cpp:89-99 | After a run that returned, Verify accepts if and only if every query of every iteration raised a ParserException in the malformed workload, or gave the expected number of statements in another |
| `BenchmarkRunner.RunAsMet` | benchmark/micro/parser.cpp:62-82 | In every interleaving, the work of a run that is over is what the loops of Run do on the flag values and parses that the interleaving let it meet: same ending, same parses, same counters |
| `BenchmarkRunner.Reachable` | benchmark/benchmark_runner.cpp:63-190 | Every interleaving of runner and watchdog, with any parser behaviour, keeps the invariant that ties flags, program counters, waits, work and results together |
| `BenchmarkRunner.VerdictsAreRight` | benchmark/benchmark_runner.cpp:157-187 | For every logged run: ERROR if and only if an exception left Run; TIMEOUT if and only if none did and the watchdog set its flag, which takes the whole wait; INCORRECT if and only if neither happened, the run was complete and a parse was not as expected; a timing if and only if it was complete, in time and every parse as expected; a run that was cut short is never INCORRECT or a timing |
| `BenchmarkRunner.LogsAreRight` | benchmark/benchmark_runner.cpp:143-187 | In the same words for every logged run: only exceptions that its workload does not swallow make an ERROR, TIMEOUT takes the configured seconds in waits of 10 ms, and a timing is a complete run in time in which every parse did what the workload wants |
| `BenchmarkRunner.WatchdogIsolated` | benchmark/benchmark_runner.cpp:151-163 | A watchdog that can still take a step was started for the run that is going on |
| `BenchmarkRunner.RunStartsClean` | benchmark/benchmark_runner.cpp:143-163 | The interrupt flag is clear before each watchdog starts; when Run begins it is set if and only if this run's own watchdog has already waited and interrupted it, for which a timeout must be configured |
| `BenchmarkRunner.InterruptedBeforeRun` | benchmark/benchmark_runner.cpp:151-158 | For every configured timeout there is a schedule in which Run begins already interrupted |
| `BenchmarkRunner.OneResultPerRun` | benchmark/benchmark_runner.cpp:164-190 | When hot run r is under way, exactly r - 1 results are logged, all timings; at the end there is one per hot run or the last is not a timing |
| `BenchmarkRunner.NothingAfterBadResult` | benchmark/benchmark_runner.cpp:166-187 | After a result that is not a timing nothing more is run or logged |
| `BenchmarkRunner.KilledOnlyWhenStuck` | benchmark/benchmark_runner.cpp:77-93 | The process is killed only while a run is still active after two full waits |
| `BenchmarkRunner.JoinIsPrompt` | benchmark/benchmark_runner.cpp:63-94 | Once no run is active the watchdog waits no more: it ends within four steps and does not kill the process |
| `BenchmarkRunner.RunsAreNumbered` | benchmark/benchmark_runner.cpp:143-187 | The number of a run is the number of runs completed before it, so one run that is not logged precedes the hot ones |
| `BenchmarkRunner.NoDeadlock` | benchmark/benchmark_runner.cpp:162-163 | Until the end, one of the two threads can always move |
| `BenchmarkRunner.BoundedSteps` | benchmark/benchmark_runner.cpp:63-190 | Under every schedule the whole benchmark takes a bounded number of steps |
| `SkipTestCleanup.InheritedIsAbove` | scripts/cleanup_config_skip_tests.py:27-63 | The walk with its visited set terminates and collects exactly the own tests of all configs above, on cycles too |
| `SkipTestCleanup.InheritedFromParent` | scripts/cleanup_config_skip_tests.py:27-63 | What a config inherits is what its parent means |
| `SkipTestMeaning.InheritedMeaning` | scripts/cleanup_config_skip_tests.py:27-63 | A config inherits exactly the tests under the paths of configs that its chain of inherit_skip_tests reaches in at least one step |
| `SkipTestCleanup.CleanOwn` | scripts/cleanup_config_skip_tests.py:66-124 | Cleaning takes exactly the inherited tests out of a config and touches nothing else of the files |
| `SkipTestMeaning.CleanMeaning` | scripts/cleanup_config_skip_tests.py:66-124 | The file after cleaning: groups in order with the inherited paths filtered out in order and all other keys kept, a group or the whole list dropped when nothing is left, groups without paths untouched; without an inherited test the file is not touched |
| `SkipTestCleanup.WithoutCounts` | scripts/cleanup_config_skip_tests.py:92 | A listed test is kept as often as it was listed, or not at all |
| `SkipTestCleanup.CleanKeepsMeaning` | scripts/cleanup_config_skip_tests.py:66-124 | Cleaning a config that is not on a cycle, or whose own tests are all own tests of other configs above it, keeps the effective and the inherited set of every config |
| `SkipTestCleanup.KeepsMeaningHere` | scripts/cleanup_config_skip_tests.py:66-124 | With the contents as they are, cleaning keeps every effective set if and only if the config is not on a cycle or other configs above it have all its own tests |
| `SkipTestCleanup.CleanKeepsMeaningIff` | scripts/cleanup_config_skip_tests.py:66-124 | Cleaning keeps every effective set, for all contents, if and only if the config is not on an inheritance cycle |
| `SkipTestCleanup.CycleLoses` | scripts/cleanup_config_skip_tests.py:44-58 | On a cycle a config inherits its own tests, and cleaning it loses them |
| `SkipTestCleanup.OrderDoesNotMatter` | scripts/cleanup_config_skip_tests.py:178-187 | In any order every config keeps its effective set and ends with its own tests minus those it inherited at the start |
| `SkipTestCleanup.SecondPassChangesNothing` | scripts/cleanup_config_skip_tests.py:178-187 | A second pass over processed configs changes no file at all |
| `SkipTestCleanup.DryRunPredicts` | scripts/cleanup_config_skip_tests.py:178-195 | A dry run announces exactly as many files as the real run changes |
| `SkipTestMeaning.CleanedCounts` | scripts/cleanup_config_skip_tests.py:178-195 | The count of a real run is the number of configs whose file it changes |
| `SkipTestCleanup.ConfigStore.GetInheritedSkipTests` | scripts/cleanup_config_skip_tests.py:27-63 | The recursive method with the shared visited set computes the specified walk |
| `SkipTestCleanup.ConfigStore.CleanupConfig` | scripts/cleanup_config_skip_tests.py:66-124 | The early returns, the group loop and the dry-run switch leave the specified files, and the result says whether a test was inherited |
| `SkipTestCleanup.ConfigStore.CleanupConfigs` | scripts/cleanup_config_skip_tests.py:178-195 | The main loop leaves the files of the one-after-the-other specification, skips configs that cannot be loaded, and counts the changes |
| `ExtensionSync.SyncPostcondition` | scripts/sync_out_of_tree_extensions.py:369-444 | A successful clone, update or force reset leaves HEAD at the tag followed by one commit per patch file in sorted order, with a clean tree, whatever the checkout was before |
| `ExtensionSyncMeaning.PatchesInOrder` | scripts/sync_out_of_tree_extensions.py:188-225 | After a clone, update or force reset the commits on top of the tag are one for each file that ends in .patch, with its name and diff, in dictionary order of the names |
| `ExtensionSyncMeaning.FailedPatch` | scripts/sync_out_of_tree_extensions.py:209-235 | A patch that does not apply stops the sync after the commits of the patches before it, and it alone decides whether changes are left behind |
| `ExtensionSyncMeaning.ModePrecedence` | scripts/sync_out_of_tree_extensions.py:369-411 | Skipping leaves a checkout alone whatever else is set, exporting never touches its commits and wins over force, and force goes to the tag |
| `ExtensionSyncMeaning.UnknownTag` | scripts/sync_out_of_tree_extensions.py:315-433 | A tag that is not known locally is fetched: offline the command fails and nothing has changed, a remote without the tag is refused with its refs fetched; uncommitted changes are refused before that by default |
| `ExtensionSync.SyncIsIdempotent` | scripts/sync_out_of_tree_extensions.py:315-366 | The next default sync then changes nothing, and takes the already-current branch if and only if no patch name starts with white space |
| `ExtensionSync.InSyncIsCurrent` | scripts/sync_out_of_tree_extensions.py:315-366 | The check accepts a checkout in sync if and only if no patch name starts with white space, and otherwise refuses it |
| `ExtensionSync.OnlyForceDiscards` | scripts/sync_out_of_tree_extensions.py:315-433 | Without force, a checkout is left alone if it has uncommitted changes, the tag cannot be found, the subjects on top of the tag are not the patch names in order, or it is built on the tag already |
| `ExtensionSync.UpdateKeepsWork` | scripts/sync_out_of_tree_extensions.py:344-433 | A default update replaces the commits on top of the tag by the patch commits: it drops as many as there are patches if and only if none has a blank subject, and it puts back the work that it drops if and only if moreover each still has the diff of its patch file |
| `ExtensionSync.AmendedCommitIsLost` | scripts/sync_out_of_tree_extensions.py:344-346 | A patch commit amended under its own subject passes the check, and its work is afterwards in neither the checkout nor the patch directory |
| `ExtensionSync.OfflineUpdateIsRefused` | scripts/sync_out_of_tree_extensions.py:414-433 | An update strips the patch commits before it fetches: without the remote it fails with the commits gone, and the next default sync refuses the checkout if and only if a commit that was stripped has a subject |
| `ExtensionSync.BlankCommitIsLost` | scripts/sync_out_of_tree_extensions.py:345-346 | A commit without a message is invisible to the check and lost by the update |
| `ExtensionSync.ProblemMeaning` | scripts/sync_out_of_tree_extensions.py:238-260 | Export refuses messages if and only if one is not a single word ending in .patch or they do not ascend strictly |
| `ExtensionSyncMeaning.ExportableMeaning` | scripts/sync_out_of_tree_extensions.py:238-260 | What can be exported: messages without white space inside, ending in .patch, in dictionary order without repetition |
| `ExtensionSync.ExportListsCommits` | scripts/sync_out_of_tree_extensions.py:263-312 | After an export the sorted patch files are the commits in commit order, each with its diff, if and only if the directory held no other patch file |
| `ExtensionSync.ExportedIsAccepted` | scripts/sync_out_of_tree_extensions.py:238-366 | An exported checkout is accepted by the next default sync with APPLY_PATCHES if and only if no message starts with white space |
| `ExtensionSync.GetPatchFiles` | scripts/sync_out_of_tree_extensions.py:188-192 | Listing in any order and sorting gives the ascending list of the patch files |
| `ExtensionSync.ExportableReason` | scripts/sync_out_of_tree_extensions.py:238-260 | The loop with its set of seen messages reports the first problem, and none exactly for exportable messages |
| `ExtensionSync.Checkout.CheckExtensionClean` | scripts/sync_out_of_tree_extensions.py:315-366 | The method gives the specified verdict and leaves the specified checkout, fetching only when the tag is unknown |
| `ExtensionSync.Checkout.ExportCommitsAsPatches` | scripts/sync_out_of_tree_extensions.py:263-312 | Nothing is written unless all messages pass; then one file per commit |
| `ExtensionSync.Checkout.SyncExtension` | scripts/sync_out_of_tree_extensions.py:369-444 | The script's branches leave exactly the specified checkout, patch directory and outcome, failures half-way included |
| `Text.AscendingIsUnique` | scripts/sync_out_of_tree_extensions.py:192 | Two strictly ascending lists with the same names are the same list |
| `Text.LessMeaning` | scripts/sync_out_of_tree_extensions.py:192 | One name is before another if it is where the other goes on, or has the smaller character where they first differ |
| `Text.OneWord` | scripts/sync_out_of_tree_extensions.py:238-260 | A message is a single word if and only if its characters that are no white space stand together |
| `Text.StripMeaning` | scripts/sync_out_of_tree_extensions.py:345-346 | Stripping leaves what is between the white space at both ends |
| `Text.SpaceMeaning` | scripts/sync_out_of_tree_extensions.py:345-346 | White space is what Python strips, by code points |
| `ExtensionTable.ParseRecordsLoop` | scripts/generate_extensions_function.py:111-148 | The flag-driven character loop computes the parser state machine |
| `ExtensionTable.RunClean` | scripts/generate_extensions_function.py:111-148 | Whatever the text, every token read is nonempty, trimmed and free of quotes |
| `ExtensionTable.RunRow` | scripts/generate_extensions_function.py:678-681 | A printed row without quotes in its texts yields one record: the stripped texts in order, empty ones dropped, whatever was collected before it |
| `ExtensionTable.SliceRead` | scripts/generate_extensions_function.py:111-148 | As long as no text contains a quote, reading a table strips every text, drops what is then empty, and keeps rows and order |
| `ExtensionTable.RunSlice` | scripts/generate_extensions_function.py:111-148 | Parsing a table's name and body gives its rows back if and only if there is a row and every quoted text is nonempty, trimmed and quote-free |
| `ExtensionTable.EmptyTable` | scripts/generate_extensions_function.py:671-684 | A table without rows is read as one record without items |
| `ExtensionTable.ExportTable` | scripts/generate_extensions_function.py:671-684 | The export loop prints the specified table |
| `ExtensionTableText.FunctionRowText` | scripts/generate_extensions_function.py:671-684 | A row of the function table holds name, extension and catalog type |
| `ExtensionTableText.OverloadRowText` | scripts/generate_extensions_function.py:686-703 | A row of the overload table holds name, extension, catalog type and the signature of its parameters and return type |
| `ExtensionTableText.RowsInOrder` | scripts/generate_extensions_function.py:671-703 | Rows are printed one after the other |
| `ExtensionTableText.TableText` | scripts/generate_extensions_function.py:671-684 | A table is its declaration, its rows and the end marker that the reader looks for |
| `ExtensionTableText.TableNames` | scripts/generate_extensions_function.py:266-275 | The names of the two tables are names for which the search is right |
| `ExtensionTableText.ClampMeaning` | scripts/generate_extensions_function.py:730-733 | Slice positions count from the end if negative and go no further than the ends |
| `ExtensionTableText.FindMeaning` | scripts/generate_extensions_function.py:730-733 | The search gives the first place where the marker stands, or -1 |
| `ExtensionTableText.SliceMeaning` | scripts/generate_extensions_function.py:730-733 | A slice with positions from either end has the characters between them, and none if they are out of order |
| `ExtensionTableMaps.SliceOfTable` | scripts/generate_extensions_function.py:730-733 | Wherever the table stands, the slice between its name and its end marker is its name and body, if nothing in front contains the name and no cell the marker |
| `ExtensionTableMaps.TableRoundTrip` | scripts/generate_extensions_function.py:671-733 | Parsing the exported slice gives the rows back, braces and commas in quotes included, if and only if there is a row and all quoted texts are clean |
| `ExtensionTableEntries.FunctionsRoundTrip` | scripts/generate_extensions_function.py:193-202 | For every enumeration of the keys, the map rebuilt from the header is the exported one if and only if it is not empty and all its names are clean |
| `ExtensionTableEntries.CreateMap` | scripts/generate_extensions_function.py:193-202 | The dictionary loop builds the specified map, the last entry of a key winning, and stops at the first bad record |
| `ExtensionTableEntries.SignatureRoundTrip` | scripts/generate_extensions_function.py:174-186 | A signature is read back as it was written if and only if it has a parameter, no parameter type contains a comma or '>', and the return type contains no '>' |
| `ExtensionTableEntries.OverloadsRoundTrip` | scripts/generate_extensions_function.py:174-190 | For every enumeration of the keys, the overloads rebuilt from the header are the exported ones, each key with its list in the written order, if and only if there are any, their names are clean, and their signatures can be taken apart and have neither quotes nor white space at the end |
| `IcuCalendar.Calendar.FieldDifference` | extension/icu/datetime/calendar.cpp:1067-1187 | For any field whose addition moves strictly forward: doubling and halving, or walking from an estimate, finds the furthest count that does not pass the target, in both directions, and leaves the clock there; it fails if and only if 32 bits do not reach the target |
| `IcuCalendar.Calendar.TryGuessDifference` | extension/icu/datetime/calendar.cpp:1003-1062 | Whatever the estimate, a count that is found is the furthest one |
| `IcuCalendar.FurthestIsUnique` | extension/icu/datetime/calendar.cpp:1067-1187 | There is at most one furthest count, so the search has one result |
| `IcuCalendar.FurthestIsWholeUnits` | extension/icu/datetime/calendar.cpp:1067-1187 | For units of constant length the furthest count is the number of whole units toward zero |
| `IcuDateDiff.MonthReachIncreasing` | extension/icu/datetime/calendar.cpp:1067-1187 | Adding months moves strictly forward although days are cut to the end of a month, so the search applies to months, quarters and years |
| `IcuDateAdd.CalendarAddHour` | extension/icu/icu-dateadd.cpp:45-61 | Terminates for every 64-bit number of hours, adds only 32-bit chunks, and their sum is exact |
| `IcuDateAdd.CarriedIsExact` | extension/icu/icu-dateadd.cpp:73-84 | The microsecond carry loses nothing, for all sign combinations, although the microseconds can stay negative |
| `IcuDateAdd.PartsAddUp` | extension/icu/icu-dateadd.cpp:94-105 | Breaking the interval apart by truncating division loses nothing, and all parts have its sign |
| `IcuDateAdd.Add` | extension/icu/icu-dateadd.cpp:64-127 | The result is the clock after adding time, months and days in the order that the signs ask for, with the carried microseconds, or an error if that or the carried start is out of range; without months it is exactly timestamp + days + micros, in both field orders |
| `IcuDateAdd.ReadBack` | extension/icu/icu-datefunc.cpp:140-169 | A clock stopped at a calendar bound reads back as an error exactly when the true sum is out of range |
| `IcuDateAdd.DateIsFloor` | src/common/types/timestamp.cpp:333-341 | The truncating expression for the date of a finite timestamp is the floor, before the epoch too |
| `IcuDateAdd.SetTime` | extension/icu/icu-datefunc.cpp:195-205 | Clock time and left-over microseconds put together are the timestamp, and the microseconds are below a millisecond |
| `IcuDateAdd.UnsignedRoundTrip` | extension/icu/icu-datefunc.cpp:140-169 | Microseconds survive the trip through an unsigned number |
| `IcuDateMonths.MonthsKeepFields` | extension/icu/datetime/calendar.cpp:876-891 | Adding months moves the month by the count and keeps the time of day, and the day unless the month is too short for it |
| `IcuDateMonths.MoreMonthsLater` | extension/icu/datetime/calendar.cpp:876-891 | More months lead to a strictly later instant, and only they do |
| `IcuDateMonths.MonthsInTwoSteps` | extension/icu/datetime/calendar.cpp:876-891 | Adding months in two steps is adding them at once if and only if the month in between has the day, or is no shorter than the last one |
| `IcuDateMonths.MonthIntervalIsExact` | extension/icu/icu-dateadd.cpp:64-127 | Adding an interval of months moves the months of a timestamp and keeps its microseconds, or is an error if the start or the result is out of range |
| `IcuDateMonths.MonthIntervalUndone` | extension/icu/icu-dateadd.cpp:64-127 | Subtracting the interval again leads back if and only if the month in between has the day |
| `IcuDateMonths.MonthIntervalsKeepOrder` | extension/icu/icu-dateadd.cpp:64-127 | Adding one interval of months keeps the order of two timestamps if and only if not both days are cut to the same end of a month with the earlier time of day on the later timestamp |
| `IcuDateMonths.JanuaryOvertaken` | extension/icu/icu-dateadd.cpp:64-127 | A month after January 30 at 20:00 is later than a month after January 31 at 10:00 |
| `IcuMeaning.SumMeaning` | extension/icu/icu-dateadd.cpp:64-127 | A sum is the timestamp plus days and microseconds, moved by what the months move the clock: before the days, and after the time if and only if a field is negative |
| `IcuMeaning.SumFits` | extension/icu/icu-dateadd.cpp:64-127 | Without months a sum exists if and only if the days of the carried start and of the sum begin within 64 bits, and so do the numbers themselves |
| `IcuDateSubtract.Subtract` | extension/icu/icu-dateadd.cpp:141-174 | Subtraction gives the specified interval, the negated one for swapped arguments, and an error for infinite ones |
| `IcuDateSubtract.DifferenceIsExact` | extension/icu/icu-dateadd.cpp:141-174 | days * 86400000000 + micros is the exact difference if and only if the end is not in the first millisecond after the epoch with a start before the epoch whose microseconds exceed it; from the epoch on 0 <= micros < one day |
| `IcuMeaning.DifferenceAddsUp` | extension/icu/icu-dateadd.cpp:141-174 | In either order of the timestamps the interval adds up to their difference, unless the borrow is lost |
| `IcuMeaning.BorrowOverflowMeaning` | extension/icu/icu-dateadd.cpp:154-159 | The borrow leaves 64 bits only for the smallest whole millisecond as the end |
| `IcuDateSubtract.BorrowStaysAhead` | extension/icu/icu-dateadd.cpp:154-159 | The borrowed millisecond never takes the end before the start |
| `IcuDateSubtract.BorrowLostAtEpoch` | extension/icu/icu-dateadd.cpp:154-159 | From -500 to 100 microseconds the result is a millisecond too long |
| `IcuDateSubtract.NegativeMicros` | extension/icu/icu-dateadd.cpp:151-172 | The microseconds of the result are negative if and only if the end lies before the epoch inside a millisecond and the rest of the day between the timestamps is within their microseconds of its end |
| `IcuDateSubtract.NegativeMicrosBeforeEpoch` | extension/icu/icu-dateadd.cpp:151-172 | A day less a microsecond that ends before the epoch comes out as one day and -1 microsecond |
| `IcuDateSubtract.UnsignedApart` | extension/icu/icu-dateadd.cpp:152-171 | The unsigned difference of the microseconds, cut to 32 bits, is the signed one |
| `IcuDateTrunc.TruncatedIsLatestBoundary` | extension/icu/icu-datetrunc.cpp:40-109 | Truncation is the latest boundary of the part that is not after the instant, and only that |
| `IcuDateTrunc.TruncatedMonotone` | extension/icu/icu-datetrunc.cpp:193 | Truncation is monotone, as the function is registered |
| `IcuDateTrunc.TruncatedTwice` | extension/icu/icu-datetrunc.cpp:40-109 | Truncating finer before or after coarser changes nothing; so truncation is idempotent |
| `IcuDateTrunc.FieldCalendar.Trunc` | extension/icu/icu-datetrunc.cpp:40-109 | The chain of field-clearing functions computes the truncation |
| `IcuDateTrunc.FieldCalendar.DateTrunc` | extension/icu/icu-datetrunc.cpp:158-167 | The truncated timestamp, the infinite one unchanged, or an error when it leaves 64 bits |
| `IcuDateTrunc.GregorianIsOrdered` | extension/icu/icu-datetrunc.cpp:95-109 | The Gregorian months, leap years included, are an instance of the abstract ones |
| `IcuMeaning.GregorianLengths` | extension/icu/icu-datetrunc.cpp:95-109 | Every Gregorian month has its number of days, with 29 for February of a leap year |
| `IcuMeaning.ConstantTruncation` | extension/icu/icu-datetrunc.cpp:40-93 | Up to days, truncation cuts the local time to a multiple of the length of the part |
| `IcuMeaning.MonthTruncation` | extension/icu/icu-datetrunc.cpp:95-109 | Beyond days, truncation goes back to the local start of a month, of every third month, or of every twelfth |
| `IcuMeaning.TruncationFits` | extension/icu/icu-datetrunc.cpp:158-167 | Truncation succeeds if and only if the truncated timestamp and its whole milliseconds are 64-bit numbers |
| `IcuDateDiff.DiffersMeaning` | extension/icu/icu-datesub.cpp:240-274 | date_diff gives n without an error if and only if the subtraction does not overflow and n is the number of boundaries of the part between the timestamps |
| `IcuDateDiff.HoursOverflow` | extension/icu/icu-datesub.cpp:240-274 | In hours there are 64-bit timestamps for which it does overflow, in every zone |
| `IcuDateDiff.MonthsNeverOverflow` | extension/icu/icu-datesub.cpp:240-274 | In months, quarters and years it never does |
| `IcuDateDiff.Antisymmetric` | extension/icu/icu-datesub.cpp:257-267 | Swapping the arguments negates date_diff |
| `IcuDateDiff.Telescopes` | extension/icu/icu-datesub.cpp:257-267 | date_diff from a to b and from b to c add up to that from a to c |
| `IcuDateDiff.Monotone` | extension/icu/icu-datesub.cpp:257-267 | A later end gives no smaller date_diff, and a larger one if and only if a boundary was passed |
| `IcuDateDiff.FurthestBetweenStarts` | extension/icu/icu-datesub.cpp:66-81 | Between starts of months, quarters or years the furthest count is the number of parts between them |
| `IcuDateDiff.DateDiff` | extension/icu/icu-datesub.cpp:257-267 | For every part, truncating and searching give the date_diff, or an error if and only if a truncation or the subtraction overflows |
| `IcuMeaning.ConstantDifference` | extension/icu/icu-datesub.cpp:240-274 | Up to days, date_diff is the distance of the truncated timestamps in the length of the part |
| `IcuMeaning.MonthDifference` | extension/icu/icu-datesub.cpp:66-81 | Beyond days, it is the number of months between the truncated timestamps over those of the part |
| `IcuMeaning.DifferenceFits` | extension/icu/icu-datesub.cpp:240-274 | date_diff succeeds if and only if the distance is a 64-bit number below hours, and a 32-bit number of hours or days |
| `IcuListRange.ListLength` | extension/icu/icu-list-range.cpp:76-120 | The counting loops compute the specified length and errors, and terminate by the cap on the element count |
| `IcuListRange.LengthCounts` | extension/icu/icu-list-range.cpp:76-120 | For one-signed steps and finite bounds the count ends at the first iterate beyond the bound, at the first failing Add, or at 2^32 - 1 elements; leaving early gives the same |
| `IcuListRange.CountIsUnique` | extension/icu/icu-list-range.cpp:76-120 | The three ways to end exclude one another, so they determine the count |
| `IcuListRange.ListRange` | extension/icu/icu-list-range.cpp:76-152 | The list starts at start, goes on by Add, and ends before the first value that is not short of the end, which counts only if it is inclusive; the error is the one that Add or the cap of 2^32 - 1 elements gives on the way; a zero step gives an empty list even for infinite bounds, otherwise infinite bounds, then mixed signs, are errors; NULL rows stay NULL |

## Left out

- Vector formats, selection-vector storage, allocators, binding and the constant-result shortcut of `ExecuteLambda`:
  columns are sequences that are constant or not, and the lambda is an arbitrary function of its row.
- C++ text, accessor names, container and pointer types, clang-tidy wrappers and include lists of both generators: the
  meaning of the emitted code is modelled, not its characters.
- Serialization: `custom_implementation`, `custom_switch_code`, `$` and `?` constructor parameters, finalization
  code, extra parameters and legacy serialization members.
- SerializationTheorems.RoundTrip: assumes that the emitted code compiles (names resolve, the member that selects the
  subclass is not gated), because the generator does not check this itself.
- Expressions: scalar comparison is equality of a normal form; set-valued members and per-class lists of
  generated functions are not modelled, and an order modifier is compared without its null order, as
  `OrderModifier::Equals` does.
- ExpressionUtilHashLaw.HashLawCondition: needs one instance of every class, since a class without instances cannot
  break the law.
- Benchmarks: the type name in front of an error message, `RequireReinit`, failing initialization, log files and the profiler's timings.
- Cleanup: JSON syntax, path normalization and the warning for a missing parent, which then passes nothing on.
- Sync: submodules, merges, refs that move on the remote, names with line breaks, parsing of CMake files and manifests.
- Extension table: the settings, secret, copy-function and type tables, which print two quoted names per row.
- Timestamps: zone transitions, calendars whose years have no twelve months, `Interval::GetAge`, nanosecond timestamps, eras, decades,
  centuries, millennia and weeks.
- IcuDateSubtract.Subtract: excludes the smallest whole millisecond as an end after a start inside its millisecond,
  where the borrow overflows and the original is undefined.
- IcuListRange.ListRange: the calendar's Add is any deterministic function, so nothing is said about the step between
  elements.
