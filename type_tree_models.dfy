/**
 * The data of the type tree (`type_tree::models`, `type_tree::errors`) and its read-only
 * getters. `TreeView` is the value of a `TypeTree` at one moment: every query that takes
 * `&self` is a function or a read-only method over it.
 */
module TypeTreeModels {
  import opened Wrappers
  import opened Strings
  import opened Seqs
  import opened Graphs
  import opened LegacyAst

  /** What a type node was built from: a schema or an enum definition. */
  datatype TypeDefinition = SchemaDefinition(schema: SchemaDef) | EnumDefinition(enumDef: EnumDef)

  /** One registered type: its qualified name, definition and the names it depends on. */
  datatype TypeNode = TypeNode(qualifiedName: string, definition: TypeDefinition, dependencies: set<string>)

  /** A registered program, its file path when it has one, and its package name. */
  datatype ProgramInfo = ProgramInfo(program: Program, filePath: Option<string>, packageName: Option<string>)

  datatype TypeTreeError =
    | CircularDependency(path: string)
    | TypeNotFound(name: string)
    | InvalidSchemaReference(reference: string)
    | ImportFileNotFound(filePath: string)
    | TypeNotAccessible(typeName: string, fromFile: string)
    | CircularImport(cycle: seq<string>)
    | UnresolvableImport(importPath: string, fromFile: string)

  datatype ImportValidationError =
    | FileNotFound(importPath: string, fromFile: string, resolvedPath: string)
    | CircularImport(cycle: seq<string>)

  /** The six fields of a `TypeTree`. */
  datatype TreeView = TreeView(
    nodes: map<string, TypeNode>,
    fileToPackage: map<string, string>,
    packageToPrograms: map<string, seq<nat>>,
    programs: seq<ProgramInfo>,
    importGraph: map<string, seq<string>>,
    fileToTypes: map<string, seq<string>>)

  /** `TypeTree::new()`: every map and the program list empty. */
  function EmptyView(): (v: TreeView)
    ensures |v.nodes| == 0 && |v.fileToPackage| == 0 && |v.packageToPrograms| == 0
    ensures |v.programs| == 0 && |v.importGraph| == 0 && |v.fileToTypes| == 0
  {
    TreeView(map[], map[], map[], [], map[], map[])
  }

  /** `get_type` */
  function GetType(v: TreeView, qualifiedName: string): (r: Option<TypeNode>)
    ensures r.Some? <==> qualifiedName in v.nodes
    ensures r.Some? ==> r.value == v.nodes[qualifiedName]
  {
    if qualifiedName in v.nodes then Some(v.nodes[qualifiedName]) else None
  }

  /** `has_type` */
  function HasType(v: TreeView, qualifiedName: string): (r: bool)
    ensures r <==> GetType(v, qualifiedName).Some?
  {
    qualifiedName in v.nodes
  }

  /** `get_dependencies` */
  function GetDependencies(v: TreeView, qualifiedName: string): (r: Option<set<string>>)
    ensures r.Some? <==> HasType(v, qualifiedName)
    ensures r.Some? ==> r.value == GetType(v, qualifiedName).value.dependencies
  {
    if qualifiedName in v.nodes then Some(v.nodes[qualifiedName].dependencies) else None
  }

  /** The dependency graph: each node name points at the names its node depends on. */
  function DepGraph(v: TreeView): (g: Graph)
    ensures g.Keys == v.nodes.Keys
    ensures forall n :: n in v.nodes ==> Succ(g, n) == v.nodes[n].dependencies
  {
    map n | n in v.nodes :: v.nodes[n].dependencies
  }

  /** The names of the nodes whose dependency set contains `qualifiedName`. */
  function DependentsOf(v: TreeView, qualifiedName: string): set<string>
  {
    set n | n in v.nodes && qualifiedName in v.nodes[n].dependencies
  }

  /**
   * `get_dependents`: the nodes are scanned in the map's iteration order, which is not
   * specified, so the result is some duplicate-free listing of the dependents.
   */
  method GetDependents(v: TreeView, qualifiedName: string) returns (r: seq<string>)
    ensures Distinct(r)
    ensures forall n :: n in r <==> n in DependentsOf(v, qualifiedName)
  {
    r := [];
    var rest := v.nodes.Keys;
    while rest != {}
      invariant rest <= v.nodes.Keys
      invariant Distinct(r)
      invariant forall n :: n in r ==> n !in rest
      invariant forall n :: n in r <==> n in DependentsOf(v, qualifiedName) && n !in rest
      decreases |rest|
    {
      var name :| name in rest;
      if qualifiedName in v.nodes[name].dependencies {
        r := r + [name];
      }
      rest := rest - {name};
    }
  }

  /** Dependents mirror dependencies: `a` depends on `b` exactly when `a` is a dependent of `b`. */
  lemma DependentsMirrorDependencies(v: TreeView, a: string, b: string)
    ensures a in DependentsOf(v, b) <==> GetDependencies(v, a).Some? && b in GetDependencies(v, a).value
  {
  }

  /** `get_package_for_file` */
  function GetPackageForFile(v: TreeView, filePath: string): (r: Option<string>)
    ensures r.Some? <==> filePath in v.fileToPackage
    ensures r.Some? ==> r.value == v.fileToPackage[filePath]
  {
    if filePath in v.fileToPackage then Some(v.fileToPackage[filePath]) else None
  }

  /** The programs at the listed indices, in list order, skipping indices out of range. */
  function ProgramsAt(programs: seq<ProgramInfo>, indices: seq<nat>): (r: seq<Program>)
    ensures |r| <= |indices|
    ensures (forall k :: 0 <= k < |indices| ==> indices[k] < |programs|) ==>
              |r| == |indices| && forall k :: 0 <= k < |indices| ==> r[k] == programs[indices[k]].program
  {
    if |indices| == 0 then []
    else
      var rest := ProgramsAt(programs, indices[1..]);
      if indices[0] < |programs| then [programs[indices[0]].program] + rest else rest
  }

  /** `get_programs_for_package`: the registered programs of a package, or none for an unknown package. */
  function GetProgramsForPackage(v: TreeView, packageName: string): (r: seq<Program>)
    ensures packageName !in v.packageToPrograms ==> r == []
    ensures packageName in v.packageToPrograms ==> r == ProgramsAt(v.programs, v.packageToPrograms[packageName])
  {
    if packageName in v.packageToPrograms then ProgramsAt(v.programs, v.packageToPrograms[packageName]) else []
  }

  /** `extract_package_from_qualified_name`: the text before the last `.`, or `""`. */
  function ExtractPackageFromQualifiedName(qualifiedName: string): (r: string)
    ensures '.' !in qualifiedName ==> r == ""
    ensures '.' in qualifiedName ==> exists name :: '.' !in name && qualifiedName == r + "." + name
  {
    var r := BeforeLast(qualifiedName, '.');
    if '.' in qualifiedName then
      assert qualifiedName == r + "." + AfterLast(qualifiedName, '.');
      r
    else r
  }

  /** The package of `pkg.Name` is `pkg`, for a name without dots, in the root package too. */
  lemma PackageOfQualifiedName(pkg: string, name: string)
    requires '.' !in name
    ensures ExtractPackageFromQualifiedName(QualifiedName(pkg, name)) == pkg
  {
    if pkg != "" {
      BeforeAfterLastJoin(pkg, '.', name);
    }
  }
}
