# Glass type tree, validator and Rust emitter, in Dafny

Glass is an interface-definition language. A `.glass` file declares a package, imports other
files, and defines schemas (records), enums, and services or interfaces made of functions.
This project models the core of its Rust implementation and proves properties of that model:

- **The type tree** (`glass-parser/src/type_tree/`). It registers parsed programs under their
  file paths and packages. It collects one node per schema or enum, named `pkg.Name`. It
  resolves each field's schema reference to the node it denotes, records the node's
  dependencies, and rejects a dependency cycle. It also answers queries: dependencies,
  dependents, affected and reachable types, the file that defines a type.
- **Imports over the type tree.** Import paths are resolved against the importing file.
  Validation reports a circular import or the imports of unregistered files.
- **The older, monolithic type tree** (`type_tree/mod.rs`). Only the points where it differs
  from the split one are modelled: registration without collection, the unqualified
  resolver's error, and the cycle search over every import edge.
- **The single-file validator** (`glass-parser/src/validator/`). It rejects duplicate schema
  names, interface names, field names and function names. It also rejects a type that names
  an undeclared schema.
- **The Rust emitter** (`glass-codegen/src/rust/mod.rs`), in three parts:
  - Module paths and field types, the per-package grouping of files, and the dependency order
    of types, which is a topological sort.
  - `src/lib.rs` and the `mod.rs` hierarchy.
  - The text of one program's Rust file, including its hard-coded special case.
- **Smaller pieces:**
  - The primitive type table and its Rust spellings (`ast/types.rs`,
    `generator/util.rs`).
  - The associated types, signatures and `where` clauses of a generated service trait
    (`generator/interface.rs`).
  - The byte encoding of a transport `Status` (`message/status.rs`).

### Modelling choices

- **State and queries.** `TypeTreeCore.TypeTree` is a class whose fields are the Rust struct's
  fields. Its methods change them in place. Every `&self` query is a function or method over
  the `TreeView` value that `View()` returns.
- **Hash-map iteration order.** Rust's hash-map and hash-set iteration order is unspecified. A
  loop over such a map picks its next key nondeterministically (`:|`) from the keys it has not
  yet taken. Its contract holds for every order.
- **Depth-first searches.** Each search is a recursive method paired with a method for its
  loop over successors. Each carries a ghost post-order of the names it has closed. That
  post-order is how the model proves the verdict:
  - success implies the graph is acyclic;
  - every reported chain is a simple cycle of the graph.
- **The `Program` type.** The type tree and the emitter consume a `Program` AST whose
  definition file is not part of this model. Its shape (optional package, import statements,
  schema, enum and service definitions) is taken from its uses (`LegacyAst`).

## Model

| member | source | states |
|---|---|---|
| Ast.ParseStringToPrimitiveType | crates/lib/glass-parser/src/ast/types.rs:95-113 | parsing a primitive keyword gives the variant whose keyword is that text |
| Ast.KeywordsAndVariants | crates/lib/glass-parser/src/ast/types.rs:95-113 | the fourteen keywords and the fourteen variants are in bijection: every variant's keyword parses back to it, and different keywords parse to different variants |
| Ast.Leaf | crates/lib/glass-parser/src/ast/types.rs:46-51 | the innermost type under every `Option`/`Vector` wrapper is itself no wrapper |
| RustTypes.PrimitiveRustName | crates/lib/glass-codegen/src/generator/util.rs:12-29 | each primitive is spelled as its own keyword, except `string`, which becomes `String` |
| RustTypes.KeywordToRustName | crates/lib/glass-codegen/src/generator/util.rs:12-29 | parsing a keyword and spelling the variant in Rust returns the keyword, or `String` for `string` |
| RustTypes.WrapperBrackets | crates/lib/glass-codegen/src/generator/util.rs:3-39 | the Rust text of a type holds one `<` and one `>` per `Option`/`Vec` wrapper, plus those of the innermost name |
| RustTypes.PrimitiveNamesHaveNoBrackets | crates/lib/glass-codegen/src/generator/util.rs:12-29 | no primitive's Rust name contains an angle bracket |
| RustTypes.IdentExactlyUnwrapped | crates/lib/glass-codegen/src/generator/util.rs:3-10 | when schema names are identifiers, the Rust text is an identifier exactly when the type has no wrapper |
| InterfaceGen.AnyStreamParam | crates/lib/glass-codegen/src/generator/interface.rs:22-57 | true exactly when some function takes a stream parameter |
| InterfaceGen.AnyStreamReturn | crates/lib/glass-codegen/src/generator/interface.rs:22-57 | true exactly when some function returns a stream |
| InterfaceGen.GeneratedAssociatedTypes | crates/lib/glass-codegen/src/generator/interface.rs:22-57 | `Error` comes first with no repetition; `InputStream` is present exactly when some function takes a stream; `OutputStream` is present exactly when some function returns one; `InputStream` precedes `OutputStream` |
| InterfaceGen.ParamOf | crates/lib/glass-codegen/src/generator/interface.rs:64-80 | a stream parameter, and only a stream parameter, becomes the input-stream type, carrying the Rust type of the parameter; a simple parameter becomes that Rust type |
| InterfaceGen.ReturnOf | crates/lib/glass-codegen/src/generator/interface.rs:82-105 | no return type gives a unit result; a stream return gives an output stream of its item's Rust type; any other return gives a result of its Rust type |
| InterfaceGen.GenerateWhereClauses | crates/lib/glass-codegen/src/generator/interface.rs:126-148 | a bound for the parameter type and for the return type whenever each is a plain value, and no clause exactly when neither is |
| InterfaceGen.GenerateFunctions | crates/lib/glass-codegen/src/generator/interface.rs:59-123 | one signature per function, in input order, each with the function's name, converted parameter, converted return and where clauses |
| MessageStatus.TryFromU8 | crates/lib/glass-transport/src/message/status.rs:29-46 | every byte decodes; a reserved byte gives the named variant with that discriminant, and any other byte gives `Custom` carrying it |
| MessageStatus.CustomToU8 | crates/lib/glass-transport/src/message/status.rs:21-24 | encoding a `Custom` status gives a byte that decodes back to it, unless that byte is reserved |
| MessageStatus.RoundTrip | crates/lib/glass-transport/src/message/status.rs:20-46 | each named variant decodes from its discriminant; every unreserved byte survives decode then encode; an unreserved custom code survives encode then decode |
| LegacyAst.PackageNameOf | crates/lib/glass-parser/src/type_tree/resolution.rs:38-42 | a program without a package declaration belongs to the root package `""` |
| LegacyAst.QualifiedName | crates/lib/glass-parser/src/type_tree/core.rs:178-182 | the bare name in the root package, `pkg.Name` otherwise |
| LegacyAst.Refs | crates/lib/glass-parser/src/type_tree/resolution.rs:14-28 | a type mentions at most one schema reference under its wrappers |
| TypeTreeModels.EmptyView | crates/lib/glass-parser/src/type_tree/core.rs:68-78 | a new tree has every map and the program list empty |
| TypeTreeModels.GetType | crates/lib/glass-parser/src/type_tree/core.rs:325-328 | present exactly when the name is a node, and then it is that node |
| TypeTreeModels.HasType | crates/lib/glass-parser/src/type_tree/core.rs:381-383 | true exactly when `get_type` finds the name |
| TypeTreeModels.GetDependencies | crates/lib/glass-parser/src/type_tree/core.rs:335-340 | present exactly for a known type, and then it is that node's dependency set |
| TypeTreeModels.DepGraph | crates/lib/glass-parser/src/type_tree/core.rs:278-323 | the graph the cycle check searches has the nodes as keys and each node's dependencies as its successors |
| TypeTreeModels.GetDependents | crates/lib/glass-parser/src/type_tree/core.rs:342-354 | a duplicate-free listing of exactly the nodes that depend on the name |
| TypeTreeModels.DependentsMirrorDependencies | crates/lib/glass-parser/src/type_tree/core.rs:335-354 | `a` is a dependent of `b` exactly when `b` is among `a`'s dependencies |
| TypeTreeModels.GetPackageForFile | crates/lib/glass-parser/src/type_tree/core.rs:356-359 | present exactly for a registered file, and then it is that file's package |
| TypeTreeModels.ProgramsAt | crates/lib/glass-parser/src/type_tree/core.rs:361-371 | with valid indices, the programs at those indices in list order; invalid indices are skipped |
| TypeTreeModels.GetProgramsForPackage | crates/lib/glass-parser/src/type_tree/core.rs:361-371 | no programs for an unknown package; otherwise the registered programs at the package's indices |
| TypeTreeModels.ExtractPackageFromQualifiedName | crates/lib/glass-parser/src/type_tree/core.rs:373-379 | `""` for a name without a dot; otherwise the text before the last dot, the rest being dot-free |
| TypeTreeModels.PackageOfQualifiedName | crates/lib/glass-parser/src/type_tree/core.rs:373-379 | the package extracted from `QualifiedName(pkg, name)` is `pkg`, in the root package too |
| Imports.Parent | crates/lib/glass-parser/src/type_tree/imports.rs:14-17 | the parent is a prefix of the path, shorter unless empty; a path without a slash has the empty parent; a non-empty parent is the root `/`, the current directory `.`, or ends neither in `/` nor in `/.` |
| Imports.ParentTrailingSlash | crates/lib/glass-parser/src/type_tree/imports.rs:14-17 | a trailing slash is not a component: the parent of `a/b/` is `a` |
| Imports.ParentRepeatedSlash | crates/lib/glass-parser/src/type_tree/imports.rs:14-17 | repeated slashes before the last component are dropped: the parent of `src//a` is `src` |
| Imports.ParentDotComponent | crates/lib/glass-parser/src/type_tree/imports.rs:14-17 | a `.` component left last is dropped: the parent of `a/./b` is `a` |
| Imports.ParentOfRoot | crates/lib/glass-parser/src/type_tree/imports.rs:14-17 | the parent of `/a` is the root `/`, and the root has none |
| Imports.ResolveImportPath | crates/lib/glass-parser/src/type_tree/imports.rs:8-29 | a leading `/` is dropped; a `./` or `../` import is prefixed by the importer's directory and `/`, unless that directory is empty; anything else is kept |
| Imports.ParentOfChild | crates/lib/glass-parser/src/type_tree/imports.rs:14-22 | the parent of `dir/name` is `dir`, for every directory shaped like a parent and every name that is neither empty nor `.` |
| Imports.ResolutionEndsWithImport | crates/lib/glass-parser/src/type_tree/imports.rs:8-29 | every import not starting with `/` is a suffix of its resolution: nothing is normalised |
| Imports.FindFileForPackage | crates/lib/glass-parser/src/type_tree/imports.rs:31-37 | None exactly when no registered file declares the package; otherwise some file that does |
| Imports.FindOriginalImport | crates/lib/glass-parser/src/type_tree/imports.rs:72-87 | the first import statement, among the file's registered programs in order, that resolves to the path |
| Imports.OriginalImportOfOwnImport | crates/lib/glass-parser/src/type_tree/imports.rs:72-87 | a path that one of the file's own import statements resolves to is always traced back to an import statement that resolves to it |
| Imports.ImportCycleDfs | crates/lib/glass-parser/src/type_tree/imports.rs:122-168 | a found chain is a simple cycle of the import edges; otherwise the file is closed, the open chain is unchanged, and the post-order extends the old one |
| Imports.VisitImports | crates/lib/glass-parser/src/type_tree/imports.rs:135-161 | the loop over a file's imports either reports a simple cycle or finishes every import edge of the file |
| Imports.CompleteCycle | crates/lib/glass-parser/src/type_tree/imports.rs:105-113 | a cycle that already ends where it starts is kept; otherwise it is closed with its first file |
| Imports.ImportCycleSearch | crates/lib/glass-parser/src/type_tree/imports.rs:89-120 | a search from every unvisited file: either a simple cycle, or a post-order of all files that proves the import edges acyclic |
| Imports.DetectCircularImports | crates/lib/glass-parser/src/type_tree/imports.rs:89-120 | Some exactly when the edges between registered files have a cycle, and then it is a simple cycle; None for an empty graph |
| Imports.MissingImportsOf | crates/lib/glass-parser/src/type_tree/imports.rs:49-61 | one `FileNotFound` per import of the file that is not registered, in statement order |
| Imports.MissingImportErrors | crates/lib/glass-parser/src/type_tree/imports.rs:48-62 | the missing-file errors of every importing file, file after file, in some order of the files |
| Imports.ValidateImports | crates/lib/glass-parser/src/type_tree/imports.rs:39-70 | a cycle among registered files is reported alone as a simple cycle; otherwise the missing-file errors, or Ok when there are none |
| Imports.ValidImportsIff | crates/lib/glass-parser/src/type_tree/imports.rs:39-70 | with no cycle, validation succeeds exactly when every import edge reaches a registered file |
| Imports.MissingEdgeReported | crates/lib/glass-parser/src/type_tree/imports.rs:48-62 | every import edge to an unregistered file yields an error |
| Imports.ReportedErrorHasEdge | crates/lib/glass-parser/src/type_tree/imports.rs:48-62 | every reported error comes from an import edge to an unregistered file |
| Resolution.ImportedFiles | crates/lib/glass-parser/src/type_tree/resolution.rs:77-102 | the resolved import edges of a known current file, and the raw import strings otherwise |
| Resolution.UnqualifiedCandidates | crates/lib/glass-parser/src/type_tree/resolution.rs:58-102 | the names an unqualified reference tries, in order: the local package unless it is the root, the bare name, then each imported file's package |
| Resolution.FirstPresent | crates/lib/glass-parser/src/type_tree/resolution.rs:58-102 | the first candidate that names a node, and None exactly when no candidate does |
| Resolution.IsTypeAccessible | crates/lib/glass-parser/src/type_tree/resolution.rs:135-159 | the type's package is the file's own, or that of a registered file the file imports directly |
| Resolution.ResolveSchemaReference | crates/lib/glass-parser/src/type_tree/resolution.rs:33-132 | a qualified reference must name a node, and one accessible from a known current file; an unqualified reference gives the first candidate that names a node, or `TypeNotFound` |
| Resolution.LocalPackageFirst | crates/lib/glass-parser/src/type_tree/resolution.rs:62-69 | a name present in the local package resolves there, whatever the root and the imports hold |
| Resolution.RootBeforeImports | crates/lib/glass-parser/src/type_tree/resolution.rs:71-75 | when the local name is absent and the root name exists, the root name is the result |
| Resolution.ImportsInOrder | crates/lib/glass-parser/src/type_tree/resolution.rs:77-102 | otherwise, the earliest import whose package holds the name wins |
| Resolution.CollectTypeDependencies | crates/lib/glass-parser/src/type_tree/resolution.rs:8-31 | adds nothing for a primitive; looks through any depth of wrappers; adds exactly the resolved name of a schema reference, or fails with the resolver's error |
| Resolution.GetAllAffectedTypes | crates/lib/glass-parser/src/type_tree/resolution.rs:181-204 | the type itself and exactly the nodes from which it can be reached along dependency edges |
| Resolution.PushDependents | crates/lib/glass-parser/src/type_tree/resolution.rs:191-197 | pushes onto the worklist each unprocessed dependent, in listing order |
| Resolution.ReachableIffAccessible | crates/lib/glass-parser/src/type_tree/resolution.rs:206-237 | the reachable types of a registered file are exactly the nodes accessible from it |
| Resolution.ReachabilityNotTransitive | crates/lib/glass-parser/src/type_tree/tests/mod.rs:391-529 | with `a` importing `b` and `b` importing `c`, a type of `c` is reachable from `b` but not from `a` |
| Resolution.GetReachableTypes | crates/lib/glass-parser/src/type_tree/resolution.rs:206-237 | the nodes of the file's own package and of each directly imported registered file's package; empty for an unregistered file |
| Resolution.FindFileForType | crates/lib/glass-parser/src/type_tree/resolution.rs:161-179 | None exactly when no registered file defines the type; otherwise a file that defines it |
| Resolution.ValidateTypeReferenceMeaning | crates/lib/glass-parser/src/type_tree/resolution.rs:282-318 | a type without a reference is valid; one with a reference fails with the resolver's error, or with `TypeNotAccessible` when a reachable set is given and lacks the resolved name |
| Resolution.FieldErrors | crates/lib/glass-parser/src/type_tree/resolution.rs:261-270 | one error per failing field of a schema, in field order |
| Resolution.ValidateTypeReferences | crates/lib/glass-parser/src/type_tree/resolution.rs:239-280 | the errors of every schema field, in order; Ok exactly when there is none |
| Resolution.ValidReferencesIff | crates/lib/glass-parser/src/type_tree/resolution.rs:239-280 | validation succeeds exactly when every schema field's reference is valid |
| Resolution.SchemaFieldTypesMembers | crates/lib/glass-parser/src/type_tree/resolution.rs:258-272 | a type is checked exactly when some schema has a field of that type |
| TypeTreeCore.ResolvedImports | crates/lib/glass-parser/src/type_tree/core.rs:36-43 | one resolved path per import statement, in statement order |
| TypeTreeCore.RegisterAppendsProgram | crates/lib/glass-parser/src/type_tree/core.rs:8-53 | registration keeps indices valid, makes the program the last of its package, and leaves the nodes, the file-to-types map and the other packages unchanged |
| TypeTreeCore.RegisterAllOrder | crates/lib/glass-parser/src/type_tree/core.rs:80-139 | after registering into an empty tree, programs sit at their input index, and each package lists its programs in input order |
| TypeTreeCore.RegisterAllFiles | crates/lib/glass-parser/src/type_tree/core.rs:80-139 | a file has a package and import edges exactly when some input carries it |
| TypeTreeCore.RegisterAllLastFile | crates/lib/glass-parser/src/type_tree/mod.rs:1381-1384 | the last input carrying a path decides that file's package and its import edges: one resolved path per statement, in order |
| TypeTreeCore.TypeNames | crates/lib/glass-parser/src/type_tree/core.rs:174-220 | the qualified names of the schemas and enums, in declaration order, skipping services |
| TypeTreeCore.CollectNodesKeys | crates/lib/glass-parser/src/type_tree/core.rs:174-220 | collection adds exactly the schema and enum names and removes no node |
| TypeTreeCore.CollectNodesLast | crates/lib/glass-parser/src/type_tree/core.rs:174-220 | the last definition of a name decides its node |
| TypeTreeCore.CollectNodesUntouched | crates/lib/glass-parser/src/type_tree/core.rs:174-220 | a node that no definition names keeps what it held |
| TypeTreeCore.CollectedNodesFresh | crates/lib/glass-parser/src/type_tree/core.rs:174-220 | each collected node carries its own name and no dependencies |
| TypeTreeCore.CollectionFileIsFirst | crates/lib/glass-parser/src/type_tree/core.rs:154-169 | the file recorded for a program's types is that of the first registered program with the same package and the same number of definitions, even when that one has no path |
| TypeTreeCore.CollectAllKeeps | crates/lib/glass-parser/src/type_tree/core.rs:147-229 | collection changes only the nodes and the file-to-types map |
| TypeTreeCore.FieldDependenciesOk | crates/lib/glass-parser/src/type_tree/core.rs:247-256 | a schema's dependencies resolve exactly when every field's reference resolves |
| TypeTreeCore.FieldDependenciesValue | crates/lib/glass-parser/src/type_tree/core.rs:247-256 | on success, the dependency set is exactly the names the fields' references resolve to |
| TypeTreeCore.FieldDependenciesError | crates/lib/glass-parser/src/type_tree/core.rs:247-256 | a failure reports the error of the first field whose reference does not resolve |
| TypeTreeCore.BuildDependenciesMeaning | crates/lib/glass-parser/src/type_tree/core.rs:231-276 | on success, each schema's node holds the dependencies of the last schema of that name, replacing the old set; every other node is unchanged |
| TypeTreeCore.QualifiedNameInjective | crates/lib/glass-parser/src/type_tree/core.rs:178-182 | within one package, different names give different qualified names |
| TypeTreeCore.ResolveSameScope | crates/lib/glass-parser/src/type_tree/resolution.rs:33-132 | updating dependency sets never changes how a reference resolves |
| TypeTreeCore.FieldDependenciesInScope | crates/lib/glass-parser/src/type_tree/core.rs:247-256 | whatever a schema's fields resolve to is a registered type |
| TypeTreeCore.ConstructedClosed | crates/lib/glass-parser/src/type_tree/core.rs:80-139 | whether construction succeeds or stops at a bad reference, every recorded dependency names a node |
| TypeTreeCore.ConstructedTypes | crates/lib/glass-parser/src/type_tree/core.rs:80-139 | the nodes of a constructed tree are exactly the schemas and enums of its inputs, error or not |
| TypeTreeCore.AddedWithPathMeaning | crates/lib/glass-parser/src/type_tree/core.rs:8-53 | after adding, the file maps to its package and to one resolved import per statement; the program is last in its package; every schema and enum it declares is a node |
| TypeTreeCore.BackEdgeMessage | crates/lib/glass-parser/src/type_tree/core.rs:308-314 | the message built at a back edge is that of a simple cycle: the chain from the repeated name, joined by arrows, then the name again |
| TypeTreeCore.DetectCycleDfs | crates/lib/glass-parser/src/type_tree/core.rs:293-323 | an error carries the message of a simple dependency cycle; success closes the name, keeps the open chain, and extends the post-order |
| TypeTreeCore.VisitDependencies | crates/lib/glass-parser/src/type_tree/core.rs:304-317 | the loop over a node's dependencies reports a simple cycle or finishes every dependency |
| TypeTreeCore.TypeTree.constructor | crates/lib/glass-parser/src/type_tree/core.rs:68-78 | a new tree is the empty view |
| TypeTreeCore.TypeTree.RegisterProgram | crates/lib/glass-parser/src/type_tree/core.rs:8-53 | the tree becomes the registration of the program into the old view |
| TypeTreeCore.TypeTree.CollectTypesFromProgram | crates/lib/glass-parser/src/type_tree/core.rs:147-229 | the tree becomes the old view with the program's types collected; collection never fails |
| TypeTreeCore.TypeTree.BuildDependenciesFromProgram | crates/lib/glass-parser/src/type_tree/core.rs:231-276 | only the nodes change, as the dependency pass computes; the first failing field is the error, and updates made before it stay |
| TypeTreeCore.TypeTree.AddProgramWithPath | crates/lib/glass-parser/src/type_tree/core.rs:8-53 | register, collect, then build: the new state and the error are those of that sequence |
| TypeTreeCore.TypeTree.ValidateNoCycles | crates/lib/glass-parser/src/type_tree/core.rs:278-291 | Ok exactly when the dependency graph is acyclic; an error carries the message of a simple cycle |
| TypeTreeCore.TypeTree.FromProgramsWithPaths | crates/lib/glass-parser/src/type_tree/core.rs:80-139 | a construction error is returned as is; otherwise Ok exactly when the built graph is acyclic, and then the fresh tree is the built view |
| TypeTreeCore.TypeTree.FromPrograms | crates/lib/glass-parser/src/type_tree/core.rs:141-145 | the same, for inputs without file paths |
| LegacyTypeTree.AddProgramWithPath | crates/lib/glass-parser/src/type_tree/mod.rs:103-141 | the older `add_program_with_path` only registers: it never fails and collects no node |
| LegacyTypeTree.AddProgramDiffers | crates/lib/glass-parser/src/type_tree/mod.rs:103-141 | adding a program with a schema to an empty tree gives a node in the split tree and none in the older one |
| LegacyTypeTree.ResolveSchemaReference | crates/lib/glass-parser/src/type_tree/mod.rs:410-485 | a qualified reference resolves exactly when its node exists; an unqualified one tries the same candidates and otherwise reports the bare name |
| LegacyTypeTree.ResolversAgree | crates/lib/glass-parser/src/type_tree/mod.rs:410-485 | both resolvers find the same name when the split one succeeds; they succeed together when no accessibility check applies; they fail alike on a missing qualified reference |
| LegacyTypeTree.MissingQualifiedReference | crates/lib/glass-parser/src/type_tree/mod.rs:1045-1077 | a reference to the missing `com.example.NonExistent` fails with exactly that name |
| LegacyTypeTree.DetectCircularImports | crates/lib/glass-parser/src/type_tree/mod.rs:674-734 | over every import edge, dangling or not: Some is a simple cycle, and None means acyclic |
| LegacyTypeTree.EdgesCoincide | crates/lib/glass-parser/src/type_tree/mod.rs:701-734 | when every import reaches a registered file, both cycle searches follow the same edges |
| LegacyTypeTree.DanglingEdgeIgnored | crates/lib/glass-parser/src/type_tree/mod.rs:701-734 | a file importing itself through an unregistered path is cyclic only for the older search |
| LegacyTypeTree.ValidateImports | crates/lib/glass-parser/src/type_tree/mod.rs:624-655 | a cycle over every edge is reported alone as a simple cycle; otherwise the missing-file errors, or Ok |
| LegacyTypeTree.TwoFileCycle | crates/lib/glass-parser/src/type_tree/mod.rs:1245-1301 | two files importing each other form a cycle, and every simple cycle has three entries and contains both files |
| LegacyTypeTree.ModelsFileTypes | crates/lib/glass-parser/src/type_tree/mod.rs:1187-1242 | building from `models.glass` maps it to `com.example.User` and `com.example.Status`, in order; the file defines both, and no file defines `com.example.NonExistent` |
| Validator.FirstRepeated | crates/lib/glass-parser/src/validator/mod.rs:48-57 | a reported repetition is one of the names |
| Validator.FirstRepeatedMeaning | crates/lib/glass-parser/src/validator/mod.rs:35-62 | no repetition is found exactly when the names are distinct and none was seen before |
| Validator.FirstRepeatedWitness | crates/lib/glass-parser/src/validator/mod.rs:35-62 | the reported name sits at the first position whose name was seen or occurs earlier |
| Validator.SchemaMapOkIff | crates/lib/glass-parser/src/validator/mod.rs:35-62 | the schema map builds exactly when schema names are distinct and no schema repeats a field name |
| Validator.DuplicateSchemaRepeats | crates/lib/glass-parser/src/validator/mod.rs:204-217 | a `DuplicateSchema` error names a schema declared twice |
| Validator.DuplicateFieldRepeats | crates/lib/glass-parser/src/validator/mod.rs:48-57 | a `DuplicateField` error names a schema and a field name it holds at two positions |
| Validator.InterfaceMapOkIff | crates/lib/glass-parser/src/validator/mod.rs:64-94 | the interface map builds exactly when interface names are distinct and no interface repeats a function name |
| Validator.SchemaMapContents | crates/lib/glass-parser/src/validator/mod.rs:35-62 | without duplicates, the keys are exactly the schema names, each bound to its schema |
| Validator.BuildSchemaMap | crates/lib/glass-parser/src/validator/mod.rs:35-62 | fails exactly when a duplicate exists, with the first one as the error; otherwise gives the schema map |
| Validator.BuildInterfaceMap | crates/lib/glass-parser/src/validator/mod.rs:64-94 | fails exactly when a duplicate exists, with the first one as the error; otherwise gives the interface map |
| Validator.ValidateType | crates/lib/glass-parser/src/validator/mod.rs:118-137 | Ok exactly when the innermost type is no schema, or is a schema that is a key; the error names that schema |
| Validator.ValidateFunctionParam | crates/lib/glass-parser/src/validator/mod.rs:139-147 | Ok exactly when the innermost type of the parameter, stream or simple, is no schema or a declared one; the error names that schema |
| Validator.ValidateFunctionReturn | crates/lib/glass-parser/src/validator/mod.rs:149-157 | Ok exactly when the innermost type of the return, stream or simple, is no schema or a declared one; the error names that schema |
| Validator.FirstTypeError | crates/lib/glass-parser/src/validator/mod.rs:96-116 | Ok exactly when every check passes; an error is the first failing check's |
| Validator.FirstTypeErrorAppend | crates/lib/glass-parser/src/validator/mod.rs:96-116 | checking two lists in turn meets the first failure of the first, or else of the second |
| Validator.ValidateFieldRefs | crates/lib/glass-parser/src/validator/mod.rs:100-104 | the first failure among every schema's field types |
| Validator.ValidateSchemaFields | crates/lib/glass-parser/src/validator/mod.rs:101-103 | the first failure among one schema's field types |
| Validator.ValidateSignature | crates/lib/glass-parser/src/validator/mod.rs:107-112 | the first failure among a function's parameter and return type |
| Validator.ValidateSignatureRefs | crates/lib/glass-parser/src/validator/mod.rs:106-113 | the first failure among every function's parameter and return type |
| Validator.ValidateSchemaRef | crates/lib/glass-parser/src/validator/mod.rs:96-116 | the first failure among every schema field, then every signature |
| Validator.Validate | crates/lib/glass-parser/src/validator/mod.rs:20-33 | the schema map, then the interface map, then the reference check; the first phase that fails decides the error |
| Validator.ValidateOkIff | crates/lib/glass-parser/src/validator/mod.rs:20-33 | a file validates exactly when schema, field, interface and function names are duplicate-free and every type ends in a primitive or a declared schema |
| Validator.TypesResolveIff | crates/lib/glass-parser/src/validator/mod.rs:118-137 | over a duplicate-free schema list, every check passes exactly when every referenced schema is declared |
| RustEmitter.EmitterPackageName | crates/lib/glass-codegen/src/rust/mod.rs:114-132 | a program without a package is grouped under `root` |
| RustEmitter.EmitterQualifiedName | crates/lib/glass-codegen/src/rust/mod.rs:682-688 | `pkg.Name` with a package, the bare name without |
| RustEmitter.QualifiedNamesAgree | crates/lib/glass-codegen/src/rust/mod.rs:682-688 | the emitter's qualified name is the type tree's, except for a declared package with an empty path |
| RustEmitter.RustPathSegments | crates/lib/glass-codegen/src/rust/mod.rs:92-111 | the path splits into `crate`, the package's segments, the file stem and the type name |
| RustEmitter.RustPathParts | crates/lib/glass-codegen/src/rust/mod.rs:92-111 | for a package other than `root`, the path is `crate::` followed by the package with dots as `::`, then the stem and the name |
| RustEmitter.RustPathRoot | crates/lib/glass-codegen/src/rust/mod.rs:104-110 | for `root` or no package, the path is `crate::stem::Name` |
| RustEmitter.ConvertPrimitiveToRust | crates/lib/glass-codegen/src/rust/mod.rs:690-707 | the emitter's primitive table agrees with `util.rs` |
| RustEmitter.FieldTypeAgreesWithUtil | crates/lib/glass-codegen/src/rust/mod.rs:632-680 | on a type without references, the emitter's spelling is `util.rs`'s |
| RustEmitter.UnqualifiedRefIsRustPath | crates/lib/glass-codegen/src/rust/mod.rs:663-675 | an unqualified reference is spelled as the module path of that name in the referring file |
| RustEmitter.QualifiedRefIsRustPath | crates/lib/glass-codegen/src/rust/mod.rs:653-662 | a qualified reference is spelled as the path of the type in the file named by the lower-cased type name, in the referenced package |
| RustEmitter.TopologicalSortVisit | crates/lib/glass-codegen/src/rust/mod.rs:159-192 | an error carries a simple cycle of the located dependencies; success marks the name visited and extends the result, keeping the sort's invariant |
| RustEmitter.VisitDependencies | crates/lib/glass-codegen/src/rust/mod.rs:179-185 | the loop over a name's located dependencies reports a cycle or visits them all |
| RustEmitter.SortReentry | crates/lib/glass-codegen/src/rust/mod.rs:166-170 | re-entering a temporarily marked name closes a simple cycle |
| RustEmitter.SortClose | crates/lib/glass-codegen/src/rust/mod.rs:187-189 | appending a name once its located dependencies are visited keeps the invariant and extends the result |
| RustEmitter.GenerationOrder | crates/lib/glass-codegen/src/rust/mod.rs:135-157 | Ok exactly when the located dependencies are acyclic, and then it lists each located name once, after its located dependencies; an error names a type on a cycle |
| RustEmitter.FilesOfMembers | crates/lib/glass-codegen/src/rust/mod.rs:114-132 | a file is listed under a package exactly when it is an input of that package |
| RustEmitter.GroupProgramsByPackage | crates/lib/glass-codegen/src/rust/mod.rs:114-132 | one entry per package some input declares (`root` for none), listing its files in input order |
| RustEmitter.SortedNames | crates/lib/glass-codegen/src/rust/mod.rs:198-199 | the names of a set in strictly increasing string order, each once, all of them |
| RustEmitter.SortPackageNames | crates/lib/glass-codegen/src/rust/mod.rs:198-199 | collecting the keys and sorting gives the sorted names |
| RustEmitter.GenerateLibRs | crates/lib/glass-codegen/src/rust/mod.rs:194-221 | `src/lib.rs` holds, package by package in sorted order, a module per root file and the first segment of any other package |
| RustEmitter.LibDeclaresEveryPackage | crates/lib/glass-codegen/src/rust/mod.rs:194-221 | `lib.rs` declares exactly the first segment of every non-root package and the stem of every root file |
| RustEmitter.LibRepeatsSharedSegment | crates/lib/glass-codegen/src/rust/tests.rs:447-451 | `com.users` and `com.posts` make `lib.rs` declare `com` twice: there is no de-duplication |
| RustEmitter.GeneratePackageHierarchy | crates/lib/glass-codegen/src/rust/mod.rs:265-336 | earlier outputs are kept; every level of the package gets a `mod.rs`; each added output is new and holds its level's declarations |
| RustEmitter.CollectSubmodules | crates/lib/glass-codegen/src/rust/mod.rs:307-322 | the segment at this level of every known package that shares the prefix and has a different next segment |
| RustEmitter.DeclareSubmodules | crates/lib/glass-codegen/src/rust/mod.rs:325-327 | one `pub mod` line per submodule, each exactly once, in some order |
| RustEmitter.LevelModRs | crates/lib/glass-codegen/src/rust/mod.rs:290-328 | an intermediate level declares the package's next segment, then the other submodules; the last level declares one module per file stem |
| RustEmitter.LevelDeclaresEveryChild | crates/lib/glass-codegen/src/rust/tests.rs:453-467 | an intermediate level declares exactly the next segment of every known package under the same prefix |
| RustProgram.FirstQualified | crates/lib/glass-codegen/src/rust/mod.rs:582-605 | the first schema whose qualified name is the given one, and None when there is none |
| RustProgram.GenerateProgramRustCode | crates/lib/glass-codegen/src/rust/mod.rs:338-630 | the enums, then the schemas in emission order; the order is a generation order of the located types when one exists, and otherwise empty, which makes the emitter fall back; the method never fails |
| RustProgram.SplitDefinitions | crates/lib/glass-codegen/src/rust/mod.rs:365-374 | the enums and the schemas of the program, in order; services are skipped |
| RustProgram.SplitMembers | crates/lib/glass-codegen/src/rust/mod.rs:365-374 | every definition lands in exactly the list of its kind |
| RustProgram.EmitSchemas | crates/lib/glass-codegen/src/rust/mod.rs:423-626 | appends the structs of the schemas in emission order |
| RustProgram.EmitNamed | crates/lib/glass-codegen/src/rust/mod.rs:432-499 | one of the hard-coded loops: appends the struct of every schema with that name |
| RustProgram.EmitOthers | crates/lib/glass-codegen/src/rust/mod.rs:500-524 | appends the structs of the schemas other than `A`, `B` and `C` |
| RustProgram.EmitAll | crates/lib/glass-codegen/src/rust/mod.rs:609-624 | the fallback appends every schema's struct in declaration order |
| RustProgram.EmitInOrder | crates/lib/glass-codegen/src/rust/mod.rs:580-606 | for each name of the order, appends the struct of the first schema it qualifies |
| RustProgram.EmitFirstQualified | crates/lib/glass-codegen/src/rust/mod.rs:582-605 | appends the first qualifying schema's struct, or nothing |
| RustProgram.InOrderMembers | crates/lib/glass-codegen/src/rust/mod.rs:580-606 | a schema is emitted on the normal path exactly when some name of the order finds it first |
| RustProgram.DependencyEmittedFirst | crates/lib/glass-codegen/src/rust/mod.rs:580-606 | on the normal path each located dependency's struct comes before its dependent's |
| RustProgram.LocatedSchemasEmitted | crates/lib/glass-codegen/src/rust/mod.rs:580-606 | the emitted schemas are located schemas of the program, and every located name has a schema emitted for it |
| RustProgram.FallbackDeclarationOrder | crates/lib/glass-codegen/src/rust/mod.rs:557-576 | without a generation order, outside the hard-coded case, the schemas keep declaration order |
| RustProgram.HardCodedEmitsEachOnce | crates/lib/glass-codegen/src/rust/mod.rs:430-524 | the hard-coded case emits every schema exactly as often as it is declared |
| RustProgram.HardCodedIgnoresDependencies | crates/lib/glass-codegen/src/rust/mod.rs:430-524 | on a constructed file `dependency_test` where `A` depends on `B`, the hard-coded case still emits `A` before `B`, while every generation order puts `B` first |
| RustProgram.HardCodedABC | crates/lib/glass-codegen/src/rust/tests.rs:627-637 | schemas `A`, `B` and `C` of `dependency_test` come out in that order |
| Strings.JoinSplit | crates/lib/glass-codegen/src/rust/mod.rs:99-106 | splitting on a character and joining with it gives the string back |
| Strings.SplitJoin | crates/lib/glass-codegen/src/rust/mod.rs:99-106 | joining separator-free parts and splitting gives the parts back |
| Strings.ReplaceJoin | crates/lib/glass-codegen/src/rust/mod.rs:99-106 | replacing the separator of a joined string is joining with the replacement |
| Strings.BeforeAfterLastJoin | crates/lib/glass-parser/src/type_tree/core.rs:373-379 | splitting `a.b`, where `b` has no dot, at its last dot gives `a` and `b` |
| Graphs.PostOrderedAcyclic | crates/lib/glass-parser/src/type_tree/core.rs:278-291 | a post-order listing every key witnesses that the graph is acyclic |
| Graphs.BackEdgeCycle | crates/lib/glass-parser/src/type_tree/core.rs:308-314 | a back edge to a name on the open chain closes a simple cycle from that name |
| Graphs.BackwardClosed | crates/lib/glass-parser/src/type_tree/resolution.rs:181-204 | a set holding `x` and all predecessors of its members holds every name from which `x` is reachable |

## Left out

- `build_type_location_map` and `find_program_for_type` (`rust/mod.rs:45-90`) are not modelled. Their result, each located type with its dependencies, is a parameter of the emitter.
- `generate_package_modules` and the `CodeGenerator::generate` driver are not modelled. They only write the modelled contents to `src/...` paths.
- The parser, spans, and the `pest`-driven `try_parse` functions are not modelled. `ParseStringToPrimitiveType` requires a primitive keyword because the grammar lets only those through.
- The shard binaries, file I/O and the transport server and TLS code are not modelled. Only the byte encoding of `Status` is.
- `Display` and `Debug` texts are not modelled. An error keeps its variant and its fields.
- Hash-map and hash-set iteration order is unspecified. Contracts state what holds for every order.
- `MessageStatus`: the non-`Custom` arm of `From<Status> for u8` is left out. It calls `u8::from` on the same value, which recurses without end.
- Generated Rust code is modelled as strings and records, not as `TokenStream`s. `InterfaceGen` keeps the names and types of the generated items.
- `Imports.Parent`: `Path::parent` is modelled for Unix paths only. `/` is the only separator, and Windows prefixes are not modelled.
- `Imports.ResolveImportPath` normalises nothing beyond what `Path::parent` drops. Repeated slashes and `.` components inside the parent stay, as does the import text, so `src//a/b.glass` importing `./x.glass` resolves to `src//a/./x.glass`.
- `Strings.ToLower` lowers ASCII letters only.
- `std::ptr::eq` lookup of the current program's file is not modelled as a pointer test. It becomes an `Option<string>` parameter, which is `None` during construction: the tree compares against a clone, so the lookup never succeeds there.
- `TypeTreeCore.CollectionFile`: the file recorded for a program's types is that of the first registered program with the same package name and the same number of definitions, which may be a different program. This is kept as written.
- `RustProgram.GenerateProgramRustCode`: a cycle among the program's located types never escapes the method. It only makes the schemas fall back to declaration order. On the normal path, a schema the type tree does not locate is not emitted.
- `RustEmitter.EmitterPackageName`: a program declaring a package named `root` shares the module layout of a program that declares none. This is kept as written.
- `InterfaceGen.GenerateWhereClauses` requires the Rust text of each bounded type to be an identifier. `format_ident!` panics on any other text, for example a plain `Vec<u8>` parameter, and the panic is not modelled. `RustTypes.IdentExactlyUnwrapped` says which types meet the requirement: those without a wrapper.
- The older tree's other members are not modelled again. Its struct, getters, collection and dependency passes are the split tree's (`type_tree/mod.rs:180-600`), except that its dependency pass calls the older resolver (`LegacyTypeTree.ResolveSchemaReference`).
