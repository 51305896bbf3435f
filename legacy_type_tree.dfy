/**
 * The older monolithic `TypeTree` of `type_tree/mod.rs`. Its struct and most of its code
 * are the same as the split engine's; this module models only what differs: adding a
 * program registers it without collecting types, resolution has no accessibility check
 * and reports a shorter name when it fails, and the import-cycle search follows every
 * import edge, registered target or not. The remaining lemmas restate the module's own
 * unit tests about file-to-type bookkeeping and a two-file import cycle.
 */
module LegacyTypeTree {
  import opened Wrappers
  import opened Seqs
  import Strings
  import opened Graphs
  import opened LegacyAst
  import opened TypeTreeModels
  import opened Imports
  import opened Resolution
  import opened TypeTreeCore
  import Ast

  /* ---------------------------------------------------------------------------------
   * Adding a program
   * --------------------------------------------------------------------------------- */

  /**
   * `add_program_with_path` of the older tree: registration only. It never fails, and the
   * nodes and the file-to-types map are left as they were.
   */
  method AddProgramWithPath(tree: TypeTree, program: Program, filePath: string) returns (r: Result<(), TypeTreeError>)
    modifies tree
    ensures r.Ok? && tree.View() == Register(old(tree.View()), program, Some(filePath))
  {
    tree.RegisterProgram(program, Some(filePath));
    r := Ok(());
  }

  /**
   * Where the two versions part: adding a program that declares a schema to an empty
   * tree gives the split tree that schema's node, and the older tree none.
   */
  lemma AddProgramDiffers(name: string)
    ensures var program := Program(None, [], [Schema(SchemaDef(name, []))]);
      name in AddedWithPath(EmptyView(), program, "f.glass").0.nodes &&
      name !in Register(EmptyView(), program, Some("f.glass")).nodes
  {
    var program := Program(None, [], [Schema(SchemaDef(name, []))]);
    var registered := Register(EmptyView(), program, Some("f.glass"));
    assert QualifiedName(PackageNameOf(program), DefinitionName(program.definitions[0])) == name;
    CollectNodesKeys(registered.nodes, "", program.definitions, name);
  }

  /* ---------------------------------------------------------------------------------
   * Resolution
   * --------------------------------------------------------------------------------- */

  /**
   * `resolve_schema_reference` of the older tree: a qualified reference succeeds exactly
   * when its node exists; an unqualified one tries the same candidates in the same order
   * and, when none names a node, reports just the bare name.
   */
  function ResolveSchemaReference(v: TreeView, schemaRef: SchemaRef, program: Program, currentFile: Option<string>)
    : (r: Result<string, TypeTreeError>)
    ensures r.Ok? ==> r.value in v.nodes
    ensures schemaRef.package.Some? ==>
      var q := QualifiedRefName(schemaRef);
      (q in v.nodes ==> r == Ok(q)) && (q !in v.nodes ==> r == Err(TypeNotFound(q)))
    ensures schemaRef.package.None? ==>
      var cs := UnqualifiedCandidates(v, program, currentFile, schemaRef.name);
      (r.Ok? <==> exists i :: 0 <= i < |cs| && cs[i] in v.nodes) &&
      (r.Ok? ==> exists i :: 0 <= i < |cs| && cs[i] == r.value && forall j :: 0 <= j < i ==> cs[j] !in v.nodes) &&
      (r.Err? ==> r.error == TypeNotFound(schemaRef.name))
  {
    if schemaRef.package.Some? then
      var q := QualifiedRefName(schemaRef);
      if q in v.nodes then Ok(q) else Err(TypeNotFound(q))
    else
      match FirstPresent(v.nodes, UnqualifiedCandidates(v, program, currentFile, schemaRef.name))
      case Some(q) => Ok(q)
      case None => Err(TypeNotFound(schemaRef.name))
  }

  /**
   * The two resolvers find the same name whenever the split one succeeds; they succeed
   * together whenever no accessibility check applies (an unqualified reference, or no
   * current file, as during construction); and they fail with the same error on a
   * qualified reference to a missing node.
   */
  lemma ResolversAgree(v: TreeView, schemaRef: SchemaRef, program: Program, currentFile: Option<string>)
    ensures var older := ResolveSchemaReference(v, schemaRef, program, currentFile);
            var newer := Resolution.ResolveSchemaReference(v, schemaRef, program, currentFile);
      (newer.Ok? ==> older == newer) &&
      (schemaRef.package.None? || currentFile.None? ==> (older.Ok? <==> newer.Ok?)) &&
      (schemaRef.package.Some? && QualifiedRefName(schemaRef) !in v.nodes ==> older == newer)
  {
    if schemaRef.package.None? {
      var cs := UnqualifiedCandidates(v, program, currentFile, schemaRef.name);
      var older := ResolveSchemaReference(v, schemaRef, program, currentFile);
      var newer := Resolution.ResolveSchemaReference(v, schemaRef, program, currentFile);
      if newer.Ok? {
        var i :| 0 <= i < |cs| && cs[i] == newer.value && forall j :: 0 <= j < i ==> cs[j] !in v.nodes;
        var k :| 0 <= k < |cs| && cs[k] == older.value && forall j :: 0 <= j < k ==> cs[j] !in v.nodes;
        assert !(i < k) && !(k < i);
      }
    }
  }

  /**
   * The older tree's message for a qualified reference to a missing type names the full
   * path: a reference to `com.example.NonExistent` fails with exactly that name.
   */
  lemma MissingQualifiedReference(v: TreeView, program: Program)
    requires "com.example.NonExistent" !in v.nodes
    ensures ResolveSchemaReference(v, SchemaRef(Some(PackagePath(["com", "example"])), "NonExistent"), program, None)
            == Err(TypeNotFound("com.example.NonExistent"))
  {
    assert PathString(PackagePath(["com", "example"])) == "com.example";
    assert "com.example" + "." + "NonExistent" == "com.example.NonExistent";
  }

  /* ---------------------------------------------------------------------------------
   * Import cycles
   * --------------------------------------------------------------------------------- */

  /** Every import edge, whether or not its target is a registered file. */
  function AllImportEdges(v: TreeView): Graph
  {
    ImportEdges(v.importGraph, false, {})
  }

  /**
   * `detect_circular_imports` of the older tree: the same search over every import edge,
   * with no shortcut for an empty graph. A reported cycle is completed so that it ends
   * where it starts.
   */
  method DetectCircularImports(v: TreeView) returns (r: Option<seq<string>>)
    ensures r.Some? ==> IsSimpleCycle(AllImportEdges(v), r.value)
    ensures r.None? ==> Acyclic(AllImportEdges(v))
  {
    r := ImportCycleSearch(v.importGraph, false, {});
  }

  /** When every import reaches a registered file, both searches follow the same edges. */
  lemma EdgesCoincide(v: TreeView)
    requires forall f, t :: f in v.importGraph && t in v.importGraph[f] ==> t in v.fileToPackage
    ensures AllImportEdges(v) == RegisteredImportEdges(v)
  {
    var a := AllImportEdges(v);
    var b := RegisteredImportEdges(v);
    forall f | f in a
      ensures a[f] == b[f]
    {
      forall t | t in a[f] ensures t in b[f] { }
    }
  }

  /**
   * An import of an unregistered file can close a cycle only in the older search: a file
   * importing itself through a dangling path is acyclic for the split search.
   */
  lemma DanglingEdgeIgnored(v: TreeView, f: string, g: string)
    requires v.importGraph == map[f := [g]] && g !in v.fileToPackage
    ensures Acyclic(RegisteredImportEdges(v))
    ensures g == f ==> !Acyclic(AllImportEdges(v))
  {
    var edges := RegisteredImportEdges(v);
    assert Succ(edges, f) == {};
    PostOrderedAcyclic(edges, [f]);
    if g == f {
      assert IsCycle(AllImportEdges(v), [f, f]);
    }
  }

  /** `validate_imports` of the older tree: the same checks, with the older cycle search. */
  method ValidateImports(v: TreeView) returns (r: Result<(), seq<ImportValidationError>>)
    ensures !Acyclic(AllImportEdges(v)) ==>
              r.Err? && |r.error| == 1 && r.error[0].CircularImport? && IsSimpleCycle(AllImportEdges(v), r.error[0].cycle)
    ensures Acyclic(AllImportEdges(v)) ==>
              exists files :: Distinct(files) && (forall f :: f in files <==> f in v.importGraph)
                              && r == (if AllMissingImports(v, files) == [] then Ok(()) else Err(AllMissingImports(v, files)))
  {
    var cycle := DetectCircularImports(v);
    if cycle.Some? {
      assert IsCycle(AllImportEdges(v), cycle.value);
      return Err([ImportValidationError.CircularImport(cycle.value)]);
    }
    r := MissingImportErrors(v);
  }

  /** The tree of two files, `a/a.glass` and `b/b.glass`, each importing the other. */
  function TwoFileCycleTree(): TreeView
  {
    var a := Program(Some(PackagePath(["com", "example", "a"])), [ImportStmt("b/b.glass")], []);
    var b := Program(Some(PackagePath(["com", "example", "b"])), [ImportStmt("a/a.glass")], []);
    Register(Register(EmptyView(), a, Some("a/a.glass")), b, Some("b/b.glass"))
  }

  /**
   * In that tree the only simple cycles are `a → b → a` and `b → a → b`: any cycle the
   * older validation reports has three entries and contains both files, and one exists.
   */
  lemma TwoFileCycle(c: seq<string>)
    ensures !Acyclic(AllImportEdges(TwoFileCycleTree()))
    ensures IsSimpleCycle(AllImportEdges(TwoFileCycleTree()), c) ==>
              |c| == 3 && "a/a.glass" in c && "b/b.glass" in c
  {
    var g := AllImportEdges(TwoFileCycleTree());
    TwoFileEdges();
    assert IsCycle(g, ["a/a.glass", "b/b.glass", "a/a.glass"]);
    if IsSimpleCycle(g, c) {
      SwapCycle(g, "a/a.glass", "b/b.glass", c);
    }
  }

  /** In a graph whose only edges are `x → y` and `y → x`, every simple cycle is `x y x` or `y x y`. */
  lemma SwapCycle(g: Graph, x: string, y: string, c: seq<string>)
    requires x != y && Succ(g, x) == {y} && Succ(g, y) == {x}
    requires forall f :: f in g ==> f == x || f == y
    requires IsSimpleCycle(g, c)
    ensures |c| == 3 && x in c && y in c
  {
    forall i | 0 <= i < |c|
      ensures c[i] == x || c[i] == y
    {
      if i < |c| - 1 {
        assert c[i + 1] in Succ(g, c[i]);
      } else {
        assert c[i] in Succ(g, c[i - 1]);
      }
    }
    assert c[1] in Succ(g, c[0]);
    if |c| > 3 {
      ThreeOfTwo(c[..|c| - 1], x, y);
      assert false;
    }
  }

  /** Three entries drawn from two values cannot all differ. */
  lemma ThreeOfTwo(d: seq<string>, x: string, y: string)
    requires |d| >= 3
    requires (d[0] == x || d[0] == y) && (d[1] == x || d[1] == y) && (d[2] == x || d[2] == y)
    ensures !Distinct(d)
  {
    if d[0] == d[1] {
      assert d[0] == d[1];
    } else if d[1] == d[2] {
      assert d[1] == d[2];
    } else {
      assert d[0] == d[2];
    }
  }

  /** An import path that starts with neither `/` nor `.` is taken as written. */
  lemma PlainImport(importingFile: string, importPath: string)
    requires |importPath| > 0 && importPath[0] != '/' && importPath[0] != '.'
    ensures ResolveImportPath(importingFile, importPath) == importPath
  {
  }

  /** Each of the two files has the other as its one import edge. */
  lemma TwoFileEdges()
    ensures var g := AllImportEdges(TwoFileCycleTree());
      Succ(g, "a/a.glass") == {"b/b.glass"} && Succ(g, "b/b.glass") == {"a/a.glass"} &&
      forall f :: f in g ==> f == "a/a.glass" || f == "b/b.glass"
  {
    var v := TwoFileCycleTree();
    PlainImport("a/a.glass", "b/b.glass");
    PlainImport("b/b.glass", "a/a.glass");
    assert ResolvedImports("a/a.glass", [ImportStmt("b/b.glass")]) == ["b/b.glass"];
    assert ResolvedImports("b/b.glass", [ImportStmt("a/a.glass")]) == ["a/a.glass"];
    assert v.importGraph == map["a/a.glass" := ["b/b.glass"], "b/b.glass" := ["a/a.glass"]];
  }

  /* ---------------------------------------------------------------------------------
   * File-to-type bookkeeping
   * --------------------------------------------------------------------------------- */

  /** A program of package `com.example` in `models.glass` with a schema `User` and an enum `Status`. */
  function ModelsInput(): seq<(Program, Option<string>)>
  {
    var user := Schema(SchemaDef("User", [SchemaField("name", Primitive(Ast.String))]));
    var status := Enum(EnumDef("Status", ["OK", "ERROR"]));
    [(Program(Some(PackagePath(["com", "example"])), [], [user, status]), Some("models.glass"))]
  }

  /** Registering that program alone records its file under `com.example`. */
  lemma ModelsRegistered()
    ensures var r := RegisterAll(EmptyView(), ModelsInput());
      r.fileToPackage == map["models.glass" := "com.example"] && r.fileToTypes == map[] &&
      r.programs == [ProgramInfo(ModelsInput()[0].0, Some("models.glass"), Some("com.example"))]
  {
    var inputs := ModelsInput();
    assert PathString(PackagePath(["com", "example"])) == "com.example";
    assert inputs[..0] == [];
    assert RegisterAll(EmptyView(), inputs) == Register(EmptyView(), inputs[0].0, Some("models.glass"));
  }

  /** Collection over that one program maps `models.glass` to its two type names. */
  lemma ModelsCollected()
    ensures var r := RegisterAll(EmptyView(), ModelsInput());
      CollectAll(r, r.programs).fileToTypes == map["models.glass" := ["com.example.User", "com.example.Status"]]
  {
    var r := RegisterAll(EmptyView(), ModelsInput());
    var program := ModelsInput()[0].0;
    ModelsRegistered();
    assert PathString(PackagePath(["com", "example"])) == "com.example";
    assert r.programs[1..] == [];
    assert CollectAll(r, r.programs) == CollectTypes(r, program);
    assert CollectionFile(r.programs, program) == Some("models.glass");
    ModelsTypeNames();
  }

  /** The type names of that program, in declaration order. */
  lemma ModelsTypeNames()
    ensures TypeNames("com.example", ModelsInput()[0].0.definitions) == ["com.example.User", "com.example.Status"]
  {
    var defs := ModelsInput()[0].0.definitions;
    assert NameOf("com.example", defs[0]) == "com.example.User";
    assert NameOf("com.example", defs[1]) == "com.example.Status";
    assert defs[..1][..0] == [];
    assert defs[..2][..1] == defs[..1];
    assert TypeNames("com.example", defs[..1]) == ["com.example.User"];
    assert defs[..2] == defs;
  }

  /**
   * Building a tree from that one program maps `models.glass` to both qualified names in
   * declaration order, so the file is the one that defines each of them, while no file
   * defines `com.example.NonExistent`.
   */
  lemma ModelsFileTypes()
    ensures var v := Constructed(ModelsInput()).0;
      "models.glass" in v.fileToTypes && v.fileToTypes["models.glass"] == ["com.example.User", "com.example.Status"] &&
      DefinesType(v, "models.glass", "com.example.User") && DefinesType(v, "models.glass", "com.example.Status") &&
      forall f :: f in v.fileToPackage ==> !DefinesType(v, f, "com.example.NonExistent")
  {
    ModelsConstructedMaps();
    ModelsDefines(Constructed(ModelsInput()).0);
    ModelsDefinesNoOther(Constructed(ModelsInput()).0);
  }

  /** With those two maps, the file defines both listed names. */
  lemma ModelsDefines(v: TreeView)
    requires v.fileToPackage == map["models.glass" := "com.example"]
    requires v.fileToTypes == map["models.glass" := ["com.example.User", "com.example.Status"]]
    ensures DefinesType(v, "models.glass", "com.example.User") && DefinesType(v, "models.glass", "com.example.Status")
  {
    ModelsPackageOf("com.example.User", "User");
    ModelsPackageOf("com.example.Status", "Status");
  }

  /** With those two maps, no file defines a name that is not listed. */
  lemma ModelsDefinesNoOther(v: TreeView)
    requires v.fileToPackage == map["models.glass" := "com.example"]
    requires v.fileToTypes == map["models.glass" := ["com.example.User", "com.example.Status"]]
    ensures forall f :: f in v.fileToPackage ==> !DefinesType(v, f, "com.example.NonExistent")
  {
    assert "com.example.NonExistent"[12] == 'N';
  }

  /** The built tree keeps the file's package and its two type names. */
  lemma ModelsConstructedMaps()
    ensures var v := Constructed(ModelsInput()).0;
      v.fileToPackage == map["models.glass" := "com.example"] &&
      v.fileToTypes == map["models.glass" := ["com.example.User", "com.example.Status"]]
  {
    var registered := RegisterAll(EmptyView(), ModelsInput());
    ModelsRegistered();
    ModelsCollected();
    CollectAllKeeps(registered, registered.programs);
  }

  /** The package of `com.example.<name>` is `com.example`. */
  lemma ModelsPackageOf(q: string, name: string)
    requires '.' !in name && q == "com.example." + name
    ensures ExtractPackageFromQualifiedName(q) == "com.example"
  {
    Strings.BeforeAfterLastJoin("com.example", '.', name);
    assert "com.example" + "." + name == q;
  }
}
