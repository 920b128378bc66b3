# pulumi-kotlin: path difference, string shortening and schema subsets

A Dafny model of three small pure-data parts of the pulumi-kotlin code generator:

- **`pathDifference`** (`WriteableFile.kt`). It checks that one path's name elements are a proper prefix of another's and returns the remaining tail. `ExistingFile.writeTo` resolves that tail against a destination. Paths are a `Path(rooted, names)` datatype. `Path.toList()` yields one single-name path per element, and the model keeps each element's name.
- **`shorten`, `capitalize`, `decapitalize`**. Their behaviour is the one `StringUtilsKtTest.kt` fixes. `shorten` keeps `keep = desiredLength - |fillWith|` characters of the input. The head gets `keep / 2` of them and the tail gets the rest, so the tail is one longer when `keep` is odd. The fill goes between them.
- **The schema-subset computation**, pinned down by `ComputeSchemaSubsetScriptTest.kt`.
  - A schema is three tables (`types`, `resources`, `functions`). Each maps a qualified name to the set of `(kind, name)` references its definition holds.
  - The forward closure is a worklist method with a visited set (`Closure.ComputeClosure`). It terminates on cycles because the visited set grows inside a finite universe, and it is proved equal to reachability along references.
  - The "load full parents" pass loops over every entity of the schema (`FullParents.IncludeFullParents`). It unions in the closure of each entity whose closure meets the subset. The subset handed to it is the defined part of the root's closure (`SchemaSubset.DefinedPart`), so a shared dangling reference does not make a parent.
  - The output keeps, table by table, exactly the defined entities of the resulting set (`SchemaSubset.BuildSubset`). The tests compare it as three independent key sets (`SchemaSubset.ContainsOnly`).

The test scenarios are restated in `subset_scenarios.dfy`. Each is stated over a small schema holding the entities the test's assertions name. The two lambda scenarios share one schema, as the two tests share one fixture: the resource references the eight types both tests list.

Modules: `Wrappers` (the `Result` type), `WriteableFile`, `StringUtils`, `SchemaModel` (entities, references, walks, reachability), `Closure`, `FullParents`, `SchemaSubset`, `SubsetScenarios`.

## Model

| member | source | states |
|---|---|---|
| `WriteableFile.ResolveAllAppends` | src/main/kotlin/com/virtuslab/pulumikotlin/codegen/step3_codegen/WriteableFile.kt:26 | folding name elements with `resolve` onto a path appends them in order and keeps that path's rootedness |
| `WriteableFile.PathDifferenceAsWritten` | src/main/kotlin/com/virtuslab/pulumikotlin/codegen/step3_codegen/WriteableFile.kt:17-27 | fails with `Failed requirement.` unless the shorter path's names are a proper prefix of the longer's (both `require`s); otherwise the result is rooted (seeded with `Path.of("/")`) and shorter ++ result == longer |
| `WriteableFile.PathDifference` | src/main/kotlin/com/virtuslab/pulumikotlin/codegen/step3_codegen/WriteableFile.kt:14-27 | same success condition and failure; the result is the relative path of the last `longer - shorter` names, at least one, with shorter ++ result == longer |
| `WriteableFile.PathDifferenceSameNames` | src/main/kotlin/com/virtuslab/pulumikotlin/codegen/step3_codegen/WriteableFile.kt:22-26 | the as-written and the documented versions succeed on the same inputs and yield the same name elements |
| `WriteableFile.CopyTargetAsWritten` | src/main/kotlin/com/virtuslab/pulumikotlin/codegen/step3_codegen/WriteableFile.kt:31-32 | the copy target of `ExistingFile.writeTo` exists exactly when the base path is a proper prefix of the file's path |
| `WriteableFile.CopyTarget` | src/main/kotlin/com/virtuslab/pulumikotlin/codegen/step3_codegen/WriteableFile.kt:31-32 | with the relative difference, the copy target is the destination followed by the file's names below the base path |
| `WriteableFile.CopyTargetAsWrittenIgnoresDestination` | src/main/kotlin/com/virtuslab/pulumikotlin/codegen/step3_codegen/WriteableFile.kt:31-32 | as written, the copy target does not depend on the destination: it is the rooted tail |
| `WriteableFile.DocumentedExample` | src/main/kotlin/com/virtuslab/pulumikotlin/codegen/step3_codegen/WriteableFile.kt:15 | `/a/b/c` against `/a/b/c/d/e`: the documented version gives `d/e`, the as-written one gives `/d/e`, and the copy targets are `destination/d/e` and `/d/e` |
| `StringUtils.Shorten` | src/test/kotlin/com/virtuslab/pulumikotlin/codegen/utils/StringUtilsKtTest.kt:69-77 | an input no longer than `desiredLength` is returned unchanged; a longer one has exactly `desiredLength` characters; it fails only when the input is too long and the fill alone is longer than `desiredLength` |
| `StringUtils.ShortenSplice` | src/test/kotlin/com/virtuslab/pulumikotlin/codegen/utils/StringUtilsKtTest.kt:37-66 | the result is the input's first `keep/2` characters, then the fill, then the input's last `keep - keep/2`; the tail is the head or one longer, by the parity of `keep` |
| `StringUtils.ShortenHeadIgnoresInputLength` | src/test/kotlin/com/virtuslab/pulumikotlin/codegen/utils/StringUtilsKtTest.kt:43-66 | inputs of different lengths sharing their first characters keep the same head and fill for one desired length and fill |
| `StringUtils.ShortenIdempotent` | src/test/kotlin/com/virtuslab/pulumikotlin/codegen/utils/StringUtilsKtTest.kt:37-42 | shortening a shortened string again returns it unchanged |
| `StringUtils.ShortenOfSplit` | src/test/kotlin/com/virtuslab/pulumikotlin/codegen/utils/StringUtilsKtTest.kt:37-66 | an input split into a head and a tail of the rule's lengths, with a longer middle, is shortened to head ++ fill ++ tail |
| `StringUtils.ShortenExampleFromDoc` | src/test/kotlin/com/virtuslab/pulumikotlin/codegen/utils/StringUtilsKtTest.kt:37-42 | `"very very very very long string"`, 20, `"...."` gives `"very ver....g string"` (8/8) |
| `StringUtils.ShortenOddInputEvenLength` | src/test/kotlin/com/virtuslab/pulumikotlin/codegen/utils/StringUtilsKtTest.kt:43-48 | odd input, desired length 22, fill `"***"` gives `"too long ***odd length"` (9/10) |
| `StringUtils.ShortenEvenInputEvenLength` | src/test/kotlin/com/virtuslab/pulumikotlin/codegen/utils/StringUtilsKtTest.kt:49-54 | even input, desired length 22, fill `"---"` gives `"too long ---ven length"` (9/10) |
| `StringUtils.ShortenOddInputOddLength` | src/test/kotlin/com/virtuslab/pulumikotlin/codegen/utils/StringUtilsKtTest.kt:55-60 | odd input, desired length 23, fill `"==="` gives `"too long s===odd length"` (10/10) |
| `StringUtils.ShortenEvenInputOddLength` | src/test/kotlin/com/virtuslab/pulumikotlin/codegen/utils/StringUtilsKtTest.kt:61-66 | even input, desired length 23, fill `"###"` gives `"too long s###ven length"` (10/10) |
| `StringUtils.ShortenWithMarker` | src/test/kotlin/com/virtuslab/pulumikotlin/scripts/ComputeSchemaSubsetScriptTest.kt:157-169 | a description made of the asserted head, a middle longer than `"<<shortened>>"` and the asserted tail is shortened, at desired length 99, to exactly the asserted text |
| `StringUtils.CaseCharRoundTrip` | src/test/kotlin/com/virtuslab/pulumikotlin/codegen/utils/StringUtilsKtTest.kt:10-28 | the upper- and lower-case character mappings undo each other on the letters they change, are idempotent, and leave letters of the other case alone |
| `StringUtils.Capitalize` | src/test/kotlin/com/virtuslab/pulumikotlin/codegen/utils/StringUtilsKtTest.kt:10-13 | same length; only the first character changes, to its upper case |
| `StringUtils.Decapitalize` | src/test/kotlin/com/virtuslab/pulumikotlin/codegen/utils/StringUtilsKtTest.kt:20-23 | same length; only the first character changes, to its lower case |
| `StringUtils.CapitalizeKeepsCapitalized` | src/test/kotlin/com/virtuslab/pulumikotlin/codegen/utils/StringUtilsKtTest.kt:15-18 | `capitalize` is the identity on a string that does not start with a lower-case letter |
| `StringUtils.DecapitalizeKeepsDecapitalized` | src/test/kotlin/com/virtuslab/pulumikotlin/codegen/utils/StringUtilsKtTest.kt:25-28 | `decapitalize` is the identity on a string that does not start with an upper-case letter; this is what the test's name promises, while its body (line 27) repeats the `"Word"` case of line 22 |
| `StringUtils.CaseRoundTrips` | src/test/kotlin/com/virtuslab/pulumikotlin/codegen/utils/StringUtilsKtTest.kt:10-28 | both are idempotent, and each applied after the other gives what it gives alone |
| `StringUtils.CaseTestCases` | src/test/kotlin/com/virtuslab/pulumikotlin/codegen/utils/StringUtilsKtTest.kt:10-28 | `"word"` and `"Word"` capitalize to `"Word"`; `"Word"` decapitalizes to `"word"` (asserted twice, at lines 22 and 27) |
| `SchemaModel.EntitiesAreDefined` | src/test/kotlin/com/virtuslab/pulumikotlin/scripts/ComputeSchemaSubsetScriptTest.kt:229-234 | the schema's entities are exactly the names of its three tables, each under its own kind |
| `SchemaModel.ReachableSelf` | src/test/kotlin/com/virtuslab/pulumikotlin/scripts/ComputeSchemaSubsetScriptTest.kt:17-31 | every entity is in its own closure |
| `SchemaModel.ReachableStep` | src/test/kotlin/com/virtuslab/pulumikotlin/scripts/ComputeSchemaSubsetScriptTest.kt:35-57 | a reference of a reachable entity is reachable |
| `SchemaModel.ReachableTransitive` | src/test/kotlin/com/virtuslab/pulumikotlin/scripts/ComputeSchemaSubsetScriptTest.kt:35-57 | reachability is transitive, so "transitively referenced" is closed under composition |
| `SchemaModel.ReachableInUniverse` | src/test/kotlin/com/virtuslab/pulumikotlin/scripts/ComputeSchemaSubsetScriptTest.kt:112-127 | whatever is reachable is the root or a reference in the schema, a finite bound for the traversal |
| `SchemaModel.WalkStaysInClosed` | src/test/kotlin/com/virtuslab/pulumikotlin/scripts/ComputeSchemaSubsetScriptTest.kt:35-57 | a walk starting in a reference-closed set ends in it |
| `SchemaModel.ReachableStaysInClosed` | src/test/kotlin/com/virtuslab/pulumikotlin/scripts/ComputeSchemaSubsetScriptTest.kt:35-57 | any reference-closed set containing the root contains everything reachable: the closure is the least one, with "nothing else" in it |
| `SchemaModel.ClosureOfLeaf` | src/test/kotlin/com/virtuslab/pulumikotlin/scripts/ComputeSchemaSubsetScriptTest.kt:17-31 | an entity referencing nothing but itself reaches exactly itself |
| `SchemaModel.ClosureOfCycle` | src/test/kotlin/com/virtuslab/pulumikotlin/scripts/ComputeSchemaSubsetScriptTest.kt:112-127 | for two entities referencing only each other or themselves, the first reaches exactly both |
| `SchemaModel.ClosureOnlyTypes` | src/test/kotlin/com/virtuslab/pulumikotlin/scripts/ComputeSchemaSubsetScriptTest.kt:35-57 | when every reference points at a type, everything reachable except the root is a type |
| `SchemaModel.RefsInTargets` | src/test/kotlin/com/virtuslab/pulumikotlin/scripts/ComputeSchemaSubsetScriptTest.kt:112-127 | the references of any entity are among the references the schema holds |
| `Closure.VisitKeepsInvariant` | src/test/kotlin/com/virtuslab/pulumikotlin/scripts/ComputeSchemaSubsetScriptTest.kt:112-127 | visiting a queued, unvisited entity keeps the worklist invariant and strictly shrinks the unvisited part of the finite universe |
| `Closure.SkipKeepsInvariant` | src/test/kotlin/com/virtuslab/pulumikotlin/scripts/ComputeSchemaSubsetScriptTest.kt:112-127 | dropping a queued entity that is already visited keeps the worklist invariant |
| `Closure.ComputeClosure` | src/test/kotlin/com/virtuslab/pulumikotlin/scripts/ComputeSchemaSubsetScriptTest.kt:112-127 | the worklist loop queues every reference found and skips visited entries, so it terminates on cyclic schemas; an entity is in its result exactly when it is reachable from the root |
| `FullParents.MeetsIffIntersects` | src/test/kotlin/com/virtuslab/pulumikotlin/scripts/ComputeSchemaSubsetScriptTest.kt:78-92 | the computed closure intersects the subset exactly when some member of the subset is reachable |
| `FullParents.ScanStep` | src/test/kotlin/com/virtuslab/pulumikotlin/scripts/ComputeSchemaSubsetScriptTest.kt:131-155 | scanning one more entity adds its closure exactly when that closure meets the subset, keeping the loop invariant |
| `FullParents.ScanEntities` | src/test/kotlin/com/virtuslab/pulumikotlin/scripts/ComputeSchemaSubsetScriptTest.kt:131-155 | after the loop over a set of entities, the result is the subset plus the closure of each scanned entity whose closure meets it, and nothing else |
| `FullParents.IncludeFullParents` | src/test/kotlin/com/virtuslab/pulumikotlin/scripts/ComputeSchemaSubsetScriptTest.kt:130-155 | after one pass over every entity of the schema, the result is the subset plus the closure of every entity whose closure meets it, and nothing else |
| `FullParents.FullParentsSuperset` | src/test/kotlin/com/virtuslab/pulumikotlin/scripts/ComputeSchemaSubsetScriptTest.kt:131-155 | the extension keeps every member of the subset |
| `FullParents.FullParentsIncludeParent` | src/test/kotlin/com/virtuslab/pulumikotlin/scripts/ComputeSchemaSubsetScriptTest.kt:78-92 | an entity whose closure meets the subset comes in with its whole closure |
| `FullParents.FullParentsIncludeAncestors` | src/test/kotlin/com/virtuslab/pulumikotlin/scripts/ComputeSchemaSubsetScriptTest.kt:78-92 | extending the defined part of a defined root's closure adds every ancestor of the root, however distant, and all it reaches |
| `FullParents.FullParentsClosed` | src/test/kotlin/com/virtuslab/pulumikotlin/scripts/ComputeSchemaSubsetScriptTest.kt:131-155 | extending a reference-closed subset leaves it reference-closed |
| `FullParents.FullParentsClosedUpToDangling` | src/test/kotlin/com/virtuslab/pulumikotlin/scripts/ComputeSchemaSubsetScriptTest.kt:131-155 | extending a subset that holds every defined reference of its members keeps that property: every defined reference of an entity of the extension is in it |
| `SchemaSubset.BuildSubset` | src/test/kotlin/com/virtuslab/pulumikotlin/scripts/ComputeSchemaSubsetScriptTest.kt:178-189 | an entity is in the output exactly when the schema defines it, in its own table, and it is in the set; its definition is unchanged |
| `SchemaSubset.DefinedPartClosedUpToDangling` | src/test/kotlin/com/virtuslab/pulumikotlin/scripts/ComputeSchemaSubsetScriptTest.kt:131-155 | the defined part of a closure holds every defined reference of its members, so `FullParentsClosedUpToDangling` applies to the set the full-parents pass receives |
| `SchemaSubset.FullParentsOfClosure` | src/test/kotlin/com/virtuslab/pulumikotlin/scripts/ComputeSchemaSubsetScriptTest.kt:131-155 | on every defined entity, the full-parents extension of the defined part of a root's closure is the full-parents subset of that root, and it adds nothing outside that subset |
| `SchemaSubset.ComputeSchemaSubset` | src/test/kotlin/com/virtuslab/pulumikotlin/scripts/ComputeSchemaSubsetScriptTest.kt:16-155 | fails exactly for a root missing from its own table; otherwise the output is the subset for the root, with or without full parents (matched against the defined part of the root's closure), and holds the root under its own kind |
| `SchemaSubset.SubsetResolves` | src/test/kotlin/com/virtuslab/pulumikotlin/scripts/ComputeSchemaSubsetScriptTest.kt:35-57 | every reference inside an output entity points at an output entity or at nothing the schema defines |
| `SchemaSubset.SubsetDeterministic` | src/test/kotlin/com/virtuslab/pulumikotlin/scripts/ComputeSchemaSubsetScriptTest.kt:178-189 | two outputs for the same inputs are equal: three identical tables |
| `SchemaSubset.FullParentsExtendSubset` | src/test/kotlin/com/virtuslab/pulumikotlin/scripts/ComputeSchemaSubsetScriptTest.kt:131-155 | with full parents, the output contains every entity of the plain output, with the same definition |
| `SchemaSubset.LeafTypeSubset` | src/test/kotlin/com/virtuslab/pulumikotlin/scripts/ComputeSchemaSubsetScriptTest.kt:96-108 | a type referencing nothing else yields types `{root}` and empty resources and functions, even if another table has the same name |
| `SchemaSubset.ResourceSubset` | src/test/kotlin/com/virtuslab/pulumikotlin/scripts/ComputeSchemaSubsetScriptTest.kt:35-57 | when references point only at types, a resource yields resources `{root}`, no functions, and exactly the defined types reachable from it |
| `SchemaSubset.FunctionSubset` | src/test/kotlin/com/virtuslab/pulumikotlin/scripts/ComputeSchemaSubsetScriptTest.kt:61-74 | a function's output holds the function and every defined type it references |
| `SubsetScenarios.TypeItself` | src/test/kotlin/com/virtuslab/pulumikotlin/scripts/ComputeSchemaSubsetScriptTest.kt:17-31 | the filter type alone yields types `{filter}` only |
| `SubsetScenarios.LambdaResourceReaches` | src/test/kotlin/com/virtuslab/pulumikotlin/scripts/ComputeSchemaSubsetScriptTest.kt:35-57 | from the lambda resource, exactly the resource and its eight types are reachable |
| `SubsetScenarios.LambdaResourceType` | src/test/kotlin/com/virtuslab/pulumikotlin/scripts/ComputeSchemaSubsetScriptTest.kt:35-57 | a type is in the resource's subset exactly when it is one of the eight the resource references |
| `SubsetScenarios.LambdaResourceAlone` | src/test/kotlin/com/virtuslab/pulumikotlin/scripts/ComputeSchemaSubsetScriptTest.kt:35-57 | the lambda resource yields resources `{Function}`, no functions, and exactly the eight types the test lists, not the unrelated type |
| `SubsetScenarios.FunctionWithType` | src/test/kotlin/com/virtuslab/pulumikotlin/scripts/ComputeSchemaSubsetScriptTest.kt:61-74 | the snapshot function yields functions `{getOpenZfsSnapshot}` and types `{filter}` only |
| `SubsetScenarios.SnapshotSubsetMembers` | src/test/kotlin/com/virtuslab/pulumikotlin/scripts/ComputeSchemaSubsetScriptTest.kt:78-92 | with full parents, the defined members of the filter type's subset are exactly the type and the function |
| `SubsetScenarios.TypeWithFullParents` | src/test/kotlin/com/virtuslab/pulumikotlin/scripts/ComputeSchemaSubsetScriptTest.kt:78-92 | the filter type with full parents also brings in the function that references it, and nothing else |
| `SubsetScenarios.KeyConflict` | src/test/kotlin/com/virtuslab/pulumikotlin/scripts/ComputeSchemaSubsetScriptTest.kt:96-108 | the IP-allocation type yields types `{it}` only, although a resource under the same name references it |
| `SubsetScenarios.RecursiveReferences` | src/test/kotlin/com/virtuslab/pulumikotlin/scripts/ComputeSchemaSubsetScriptTest.kt:112-127 | the response type whose error type references itself yields exactly the two types |
| `SubsetScenarios.LeafReachedOnlyByItself` | src/test/kotlin/com/virtuslab/pulumikotlin/scripts/ComputeSchemaSubsetScriptTest.kt:131-155 | in the lambda schema, each type is reached by no entity but itself and the resource |
| `SubsetScenarios.OnlyItselfReachesUnrelated` | src/test/kotlin/com/virtuslab/pulumikotlin/scripts/ComputeSchemaSubsetScriptTest.kt:131-155 | in the lambda schema, no other entity reaches the unrelated type |
| `SubsetScenarios.UnrelatedNotParent` | src/test/kotlin/com/virtuslab/pulumikotlin/scripts/ComputeSchemaSubsetScriptTest.kt:131-155 | the unrelated type reaches nothing of the tracing config's closure, so it is no full parent |
| `SubsetScenarios.UnrelatedOutsideSubset` | src/test/kotlin/com/virtuslab/pulumikotlin/scripts/ComputeSchemaSubsetScriptTest.kt:131-155 | the unrelated type is not in the full-parents subset of the tracing-config type |
| `SubsetScenarios.LambdaSubsetMembers` | src/test/kotlin/com/virtuslab/pulumikotlin/scripts/ComputeSchemaSubsetScriptTest.kt:131-155 | the defined members of that subset are exactly the resource and its eight types |
| `SubsetScenarios.ParentWithWholeClosure` | src/test/kotlin/com/virtuslab/pulumikotlin/scripts/ComputeSchemaSubsetScriptTest.kt:131-155 | the tracing-config type with full parents yields resources `{Function}`, no functions, and all eight of the resource's types the test lists, but not the unrelated type |
| `SubsetScenarios.DanglingClosure` | src/test/kotlin/com/virtuslab/pulumikotlin/scripts/ComputeSchemaSubsetScriptTest.kt:112-127 | a type whose only reference is dangling reaches itself and that reference, nothing more |
| `SubsetScenarios.SharedDanglingReferenceNoParent` | src/test/kotlin/com/virtuslab/pulumikotlin/scripts/ComputeSchemaSubsetScriptTest.kt:131-155 | two types sharing only a dangling reference: with full parents, the second is not in the first's subset |

Helpers that stand for source behaviour but carry no contract of their own have no row; the lemmas above are about them:
- `WriteableFile.Resolve` is Java's `Path.resolve`, and `WriteableFile.ResolveAll` is the fold at WriteableFile.kt:26. `ResolveAllAppends` and the `PathDifference` rows cover them.
- `StringUtils.UpperChar` and `StringUtils.LowerChar` are the per-character case mappings. `CaseCharRoundTrip` covers them.
- `SchemaSubset.ContainsOnly` is `assertContainsOnly` (ComputeSchemaSubsetScriptTest.kt:178-189): the three key sets compared independently. The scenario rows cover it.

## Left out

- `ExistingFile.writeTo` and `InMemoryGeneratedFile.writeTo`: the recursive copy and the KotlinPoet `FileSpec` write are file I/O and a foreign library. Only the copy target that `ExistingFile.writeTo` computes is modelled.
- Java `Path` details beyond rootedness and name elements: no normalisation of `.` or `..`, no file-system provider, no Windows roots.
- The empty Java path is not modelled. `Path.of("")` has one element, the empty name, so `pathDifference(Path.of(""), Path.of("a"))` fails the first `require`, and `resolve` of an empty path returns the receiver unchanged. The model's names are non-empty, and `WriteableFile.Here` (no element at all) is only the seed of a relative fold; it stands for no Java path.
- The implementation of `shorten`, `capitalize` and `decapitalize` is not part of this model. Their behaviour is taken from the test table.
  - Two behaviours the tests do not pin down are modelled as follows. An input no longer than `desiredLength` is returned unchanged. A long input whose fill is longer than `desiredLength` fails, the way Kotlin's `take` and `takeLast` reject a negative count.
  - The tests give the extra character of an odd `keep` to the tail, so the model does the same.
  - The failure message is abstract: Kotlin's message also names the rejected count, and which call rejects it depends on the order of `take` and `takeLast`.
- StringUtils.Shorten: lengths count Unicode scalar values, while Kotlin's `length`, `take` and `takeLast` count UTF-16 code units. On text outside the Basic Multilingual Plane the model keeps different characters, and Kotlin can split a surrogate pair. `desiredLength - fillWith.length` is unbounded here, while Kotlin's `Int` arithmetic wraps: with `desiredLength` at `Int.MIN_VALUE` and a one-character fill, Kotlin's kept count becomes `Int.MAX_VALUE` and nothing throws, but the model fails.
- StringUtils.Capitalize: only ASCII lower-case letters are upper-cased. Unicode case mapping, title case and the locale are not modelled.
- StringUtils.Decapitalize: only ASCII upper-case letters are lower-cased, for the same reason.
- The description-rewrite pass over JSON trees (`--shorten-descriptions`, test lines 157-170): only the `shorten` splice is modelled.
- `ComputeSchemaSubsetScript` itself is not part of this model. Its behaviour is the one the tests assert.
- Reference tokens and their grammar are not modelled. A definition is abstracted to the set of `(kind, name)` references found in it. This also leaves out the reference extractor and the JSON shape of entity definitions.
- An unknown root fails. No test fixes this; it is the natural reading of a root that names nothing.
- The CLI layer is not modelled: argument lists, `toListOrNull`, `main`, the output stream, JSON decoding and encoding, and the ordering of keys in the serialized output. Dafny maps are unordered, so determinism is stated as equality of the three tables (`SchemaSubset.SubsetDeterministic`).
- The fixture schemas loaded from disk are not modelled. Each scenario lemma uses a small schema with the entities its test names. References the fixture holds among those entities beyond the ones the assertions imply are not known to the model; in the lambda schema the eight types reference nothing.
- The closure's visited set also holds dangling references, which are marked and never expanded. Before the full-parents pass the closure is cut down to its defined part, so that the set the pass matches against holds defined names only, as the output does. The tests do not decide this. With the raw closure, two entities sharing only a dangling reference would count as parents of each other (`SubsetScenarios.SharedDanglingReferenceNoParent` states the chosen behaviour). The output drops dangling references in either case, because it keeps only defined entities.
- `PulumiJavaKotlinInterop.kt`: reflection-based object conversion and debug printing, outside the modelled core.

## Findings

| source | as written | input that shows it | evidently intended | confidence | as-written member | corrected member |
|---|---|---|---|---|---|---|
| src/main/kotlin/com/virtuslab/pulumikotlin/codegen/step3_codegen/WriteableFile.kt:26 | the tail is folded onto `Path.of("/")`, so the difference is rooted; `ExistingFile.writeTo` (line 32) then resolves the destination against a rooted path, which drops the destination | `pathDifference("/a/b/c", "/a/b/c/d/e")` gives `/d/e`; the copy target is `/d/e` for every destination | the relative `d/e` of the doc comment (line 15), so the copy lands at `destination/d/e` | not executed; medium (depends on `Path.resolve` replacing the receiver with a rooted argument) | `WriteableFile.PathDifferenceAsWritten`, `WriteableFile.CopyTargetAsWrittenIgnoresDestination` | `WriteableFile.PathDifference`, `WriteableFile.CopyTarget` |
