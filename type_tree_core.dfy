/**
 * Building a type tree (`type_tree/core.rs`): registering programs, collecting one node
 * per schema or enum, resolving each schema's field references into its dependency
 * set, and rejecting a dependency graph with a cycle.
 *
 * Each step is specified by a function on `TreeView` values; the `TypeTree` class at
 * the end updates its fields in place and is proved to produce exactly those values.
 * All resolution during construction runs without a current file (the source looks the
 * program up by pointer identity in a copy of its own list, which never matches).
 */
module TypeTreeCore {
  import opened Wrappers
  import opened Seqs
  import opened Strings
  import opened Graphs
  import opened LegacyAst
  import opened TypeTreeModels
  import opened Imports
  import opened Resolution

  /* ---------------------------------------------------------------------------------
   * Registration
   * --------------------------------------------------------------------------------- */

  /** The import statements of a file, each resolved against the file's own path. */
  function ResolvedImports(filePath: string, imports: seq<ImportStmt>): (r: seq<string>)
    ensures |r| == |imports|
    ensures forall k :: 0 <= k < |imports| ==> r[k] == ResolveImportPath(filePath, imports[k].path)
  {
    seq(|imports|, k requires 0 <= k < |imports| => ResolveImportPath(filePath, imports[k].path))
  }

  /**
   * Registering a program: it is appended to the program list under the next index,
   * that index is appended to its package's list, and, when it has a file path, the
   * path is mapped to the package and to its resolved imports.
   */
  function Register(v: TreeView, program: Program, filePath: Option<string>): TreeView
  {
    var pkg := PackageNameOf(program);
    var earlier := if pkg in v.packageToPrograms then v.packageToPrograms[pkg] else [];
    v.(programs := v.programs + [ProgramInfo(program, filePath, Some(pkg))],
       fileToPackage := if filePath.Some? then v.fileToPackage[filePath.value := pkg] else v.fileToPackage,
       importGraph := if filePath.Some? then v.importGraph[filePath.value := ResolvedImports(filePath.value, program.imports)]
                      else v.importGraph,
       packageToPrograms := v.packageToPrograms[pkg := earlier + [|v.programs|]])
  }

  /** Every index listed for a package names a registered program. */
  predicate IndicesValid(v: TreeView)
  {
    forall pkg, k :: pkg in v.packageToPrograms && 0 <= k < |v.packageToPrograms[pkg]| ==>
      v.packageToPrograms[pkg][k] < |v.programs|
  }

  /**
   * Registration keeps every index valid, makes the program the last of its package's
   * programs, and leaves the nodes, the file-to-types map and every other package alone.
   */
  lemma RegisterAppendsProgram(v: TreeView, program: Program, filePath: Option<string>, other: string)
    requires IndicesValid(v)
    ensures var r := Register(v, program, filePath);
      IndicesValid(r) && r.nodes == v.nodes && r.fileToTypes == v.fileToTypes &&
      |r.programs| == |v.programs| + 1 && r.programs[|v.programs|].program == program &&
      GetProgramsForPackage(r, PackageNameOf(program)) == GetProgramsForPackage(v, PackageNameOf(program)) + [program] &&
      (other != PackageNameOf(program) ==> GetProgramsForPackage(r, other) == GetProgramsForPackage(v, other))
  {
    var r := Register(v, program, filePath);
    var pkg := PackageNameOf(program);
    var earlier := if pkg in v.packageToPrograms then v.packageToPrograms[pkg] else [];
    ProgramsAtGrow(v.programs, r.programs, earlier);
    ProgramsAtSnoc(r.programs, earlier, |v.programs|);
    if other != pkg && other in v.packageToPrograms {
      ProgramsAtGrow(v.programs, r.programs, v.packageToPrograms[other]);
    }
  }

  /** Appending programs does not change what valid indices denote. */
  lemma {:induction false} ProgramsAtGrow(a: seq<ProgramInfo>, b: seq<ProgramInfo>, indices: seq<nat>)
    requires |a| <= |b| && b[..|a|] == a
    requires forall k :: 0 <= k < |indices| ==> indices[k] < |a|
    ensures ProgramsAt(b, indices) == ProgramsAt(a, indices)
  {
    if |indices| > 0 {
      assert b[indices[0]] == a[indices[0]];
      ProgramsAtGrow(a, b, indices[1..]);
    }
  }

  lemma {:induction false} ProgramsAtSnoc(programs: seq<ProgramInfo>, indices: seq<nat>, i: nat)
    requires forall k :: 0 <= k < |indices| ==> indices[k] < |programs|
    requires i < |programs|
    ensures ProgramsAt(programs, indices + [i]) == ProgramsAt(programs, indices) + [programs[i].program]
  {
    if |indices| > 0 {
      assert (indices + [i])[1..] == indices[1..] + [i];
      ProgramsAtSnoc(programs, indices[1..], i);
    } else {
      assert ProgramsAt(programs, [i][1..]) == [];
    }
  }

  /** The registration loop of `from_programs_with_paths`: every input in input order. */
  function RegisterAll(v: TreeView, inputs: seq<(Program, Option<string>)>): TreeView
  {
    if |inputs| == 0 then v
    else
      var last := inputs[|inputs| - 1];
      Register(RegisterAll(v, inputs[..|inputs| - 1]), last.0, last.1)
  }

  /** The input programs that declare `pkg`, in input order. */
  function ProgramsDeclaring(inputs: seq<(Program, Option<string>)>, pkg: string): seq<Program>
  {
    if |inputs| == 0 then []
    else
      var last := inputs[|inputs| - 1].0;
      ProgramsDeclaring(inputs[..|inputs| - 1], pkg) + (if PackageNameOf(last) == pkg then [last] else [])
  }

  /**
   * After registering the inputs into an empty tree, programs sit at their input index
   * and `get_programs_for_package` lists a package's programs in input order.
   */
  lemma {:induction false} RegisterAllOrder(inputs: seq<(Program, Option<string>)>, pkg: string)
    ensures var v := RegisterAll(EmptyView(), inputs);
      IndicesValid(v) && |v.programs| == |inputs| &&
      (forall i :: 0 <= i < |inputs| ==> v.programs[i].program == inputs[i].0 && v.programs[i].filePath == inputs[i].1) &&
      GetProgramsForPackage(v, pkg) == ProgramsDeclaring(inputs, pkg) &&
      |v.nodes| == 0 && |v.fileToTypes| == 0
  {
    if |inputs| > 0 {
      var prefix := inputs[..|inputs| - 1];
      var last := inputs[|inputs| - 1];
      RegisterAllOrder(prefix, pkg);
      var before := RegisterAll(EmptyView(), prefix);
      RegisterAppendsProgram(before, last.0, last.1, pkg);
      var v := Register(before, last.0, last.1);
      forall i | 0 <= i < |inputs|
        ensures v.programs[i].program == inputs[i].0 && v.programs[i].filePath == inputs[i].1
      {
        if i < |prefix| {
          assert v.programs[i] == before.programs[i] && inputs[i] == prefix[i];
        }
      }
    }
  }

  /** Some input carries the file path `f`. */
  predicate CarriesFile(inputs: seq<(Program, Option<string>)>, f: string)
  {
    exists i :: 0 <= i < |inputs| && inputs[i].1 == Some(f)
  }

  /**
   * A file path is registered, with import edges, exactly when some input carries it;
   * programs without a path register neither.
   */
  lemma {:induction false} RegisterAllFiles(inputs: seq<(Program, Option<string>)>, f: string)
    ensures var v := RegisterAll(EmptyView(), inputs);
      (f in v.fileToPackage <==> CarriesFile(inputs, f)) && (f in v.importGraph <==> CarriesFile(inputs, f))
  {
    if |inputs| > 0 {
      var prefix := inputs[..|inputs| - 1];
      RegisterAllFiles(prefix, f);
      if CarriesFile(prefix, f) {
        var i :| 0 <= i < |prefix| && prefix[i].1 == Some(f);
        assert inputs[i] == prefix[i];
      }
      if CarriesFile(inputs, f) && inputs[|inputs| - 1].1 != Some(f) {
        var i :| 0 <= i < |inputs| && inputs[i].1 == Some(f);
        assert prefix[i] == inputs[i];
      }
    }
  }

  /**
   * The last input carrying a file path decides that file's package and its import
   * edges, one resolved path per import statement, in statement order.
   */
  lemma {:induction false} RegisterAllLastFile(inputs: seq<(Program, Option<string>)>, i: nat)
    requires i < |inputs| && inputs[i].1.Some?
    requires forall j :: i < j < |inputs| ==> inputs[j].1 != inputs[i].1
    ensures var v := RegisterAll(EmptyView(), inputs); var f := inputs[i].1.value;
      f in v.fileToPackage && v.fileToPackage[f] == PackageNameOf(inputs[i].0) &&
      f in v.importGraph && v.importGraph[f] == ResolvedImports(f, inputs[i].0.imports)
  {
    if i < |inputs| - 1 {
      var prefix := inputs[..|inputs| - 1];
      assert prefix[i] == inputs[i];
      RegisterAllLastFile(prefix, i);
    }
  }

  /* ---------------------------------------------------------------------------------
   * Collection
   * --------------------------------------------------------------------------------- */

  /** The node a schema or enum definition becomes, with no dependencies yet. */
  function NodeOf(pkg: string, d: Definition): (n: TypeNode)
    requires IsTypeDefinition(d)
  {
    TypeNode(QualifiedName(pkg, DefinitionName(d)),
             if d.Schema? then SchemaDefinition(d.schema) else EnumDefinition(d.enumDef), {})
  }

  /** The name a schema or enum of package `pkg` is registered under. */
  function NameOf(pkg: string, d: Definition): string
    requires IsTypeDefinition(d)
  {
    QualifiedName(pkg, DefinitionName(d))
  }

  /** One node per schema or enum, in declaration order, a later one replacing an earlier one of the same name. */
  function CollectNodes(nodes: map<string, TypeNode>, pkg: string, defs: seq<Definition>): map<string, TypeNode>
  {
    if |defs| == 0 then nodes
    else
      var m := CollectNodes(nodes, pkg, defs[..|defs| - 1]);
      var d := defs[|defs| - 1];
      if IsTypeDefinition(d) then m[NameOf(pkg, d) := NodeOf(pkg, d)] else m
  }

  /** The qualified names of a program's schemas and enums, in declaration order. */
  function TypeNames(pkg: string, defs: seq<Definition>): (r: seq<string>)
    ensures |r| <= |defs|
  {
    if |defs| == 0 then []
    else
      var d := defs[|defs| - 1];
      TypeNames(pkg, defs[..|defs| - 1]) + (if IsTypeDefinition(d) then [NameOf(pkg, d)] else [])
  }

  /** The `j`-th definition is the last schema or enum of its name. */
  predicate LastNamed(pkg: string, defs: seq<Definition>, j: int)
  {
    0 <= j < |defs| && IsTypeDefinition(defs[j]) &&
    forall k :: j < k < |defs| && IsTypeDefinition(defs[k]) ==> NameOf(pkg, defs[k]) != NameOf(pkg, defs[j])
  }

  /** Some schema or enum of `defs` is named `n`. */
  predicate Declares(pkg: string, defs: seq<Definition>, n: string)
  {
    exists j :: 0 <= j < |defs| && IsTypeDefinition(defs[j]) && NameOf(pkg, defs[j]) == n
  }

  /** Collection adds exactly the names of the schemas and enums and removes nothing. */
  lemma {:induction false} CollectNodesKeys(nodes: map<string, TypeNode>, pkg: string, defs: seq<Definition>, n: string)
    ensures n in CollectNodes(nodes, pkg, defs) <==> n in nodes || Declares(pkg, defs, n)
  {
    if |defs| > 0 {
      var prefix := defs[..|defs| - 1];
      CollectNodesKeys(nodes, pkg, prefix, n);
      if Declares(pkg, defs, n) && !(IsTypeDefinition(defs[|defs| - 1]) && NameOf(pkg, defs[|defs| - 1]) == n) {
        var j :| 0 <= j < |defs| && IsTypeDefinition(defs[j]) && NameOf(pkg, defs[j]) == n;
        assert prefix[j] == defs[j];
      }
    }
  }

  /** The node of a name is built from the last schema or enum of that name: a later definition replaces an earlier one. */
  lemma {:induction false} CollectNodesLast(nodes: map<string, TypeNode>, pkg: string, defs: seq<Definition>, j: nat)
    requires LastNamed(pkg, defs, j)
    ensures var r := CollectNodes(nodes, pkg, defs);
      NameOf(pkg, defs[j]) in r && r[NameOf(pkg, defs[j])] == NodeOf(pkg, defs[j])
  {
    if j < |defs| - 1 {
      var prefix := defs[..|defs| - 1];
      assert prefix[j] == defs[j];
      assert LastNamed(pkg, prefix, j);
      CollectNodesLast(nodes, pkg, prefix, j);
    }
  }

  /** A node that no definition of the program names keeps what it held. */
  lemma {:induction false} CollectNodesUntouched(nodes: map<string, TypeNode>, pkg: string, defs: seq<Definition>, n: string)
    requires n in nodes && !Declares(pkg, defs, n)
    ensures var r := CollectNodes(nodes, pkg, defs); n in r && r[n] == nodes[n]
  {
    if |defs| > 0 {
      var prefix := defs[..|defs| - 1];
      CollectNodesUntouched(nodes, pkg, prefix, n);
      assert !(IsTypeDefinition(defs[|defs| - 1]) && NameOf(pkg, defs[|defs| - 1]) == n);
    }
  }

  /** Every node is stored under its own name and has no dependencies yet. */
  predicate FreshNodes(nodes: map<string, TypeNode>)
  {
    forall n :: n in nodes ==> nodes[n].qualifiedName == n && nodes[n].dependencies == {}
  }

  /** Every collected node carries the name it is stored under and an empty dependency set. */
  lemma {:induction false} CollectedNodesFresh(nodes: map<string, TypeNode>, pkg: string, defs: seq<Definition>)
    requires FreshNodes(nodes)
    ensures FreshNodes(CollectNodes(nodes, pkg, defs))
  {
    if |defs| > 0 {
      CollectedNodesFresh(nodes, pkg, defs[..|defs| - 1]);
    }
  }

  /** Two programs that `collect_types_from_program` cannot tell apart: same package, same number of definitions. */
  predicate SameShape(a: Program, b: Program)
  {
    PackageNameOf(a) == PackageNameOf(b) && |a.definitions| == |b.definitions|
  }

  /** The file path of the first registered program shaped like `program`, if it has one. */
  function CollectionFile(programs: seq<ProgramInfo>, program: Program): (r: Option<string>)
    ensures r.Some? ==> exists i :: 0 <= i < |programs| && SameShape(programs[i].program, program) && programs[i].filePath == r
    ensures (forall i :: 0 <= i < |programs| ==> !SameShape(programs[i].program, program)) ==> r.None?
  {
    if |programs| == 0 then None
    else if SameShape(programs[0].program, program) then programs[0].filePath
    else
      var r := CollectionFile(programs[1..], program);
      assert forall i :: 1 <= i < |programs| ==> programs[i] == programs[1..][i - 1];
      r
  }

  /** The first registered program shaped like `program` decides the file, even when it has no path. */
  lemma {:induction false} CollectionFileIsFirst(programs: seq<ProgramInfo>, program: Program, i: nat)
    requires i < |programs| && SameShape(programs[i].program, program)
    requires forall k :: 0 <= k < i ==> !SameShape(programs[k].program, program)
    ensures CollectionFile(programs, program) == programs[i].filePath
  {
    if i > 0 {
      CollectionFileIsFirst(programs[1..], program, i - 1);
    }
  }

  /**
   * `collect_types_from_program`: one node per schema or enum, and when the first
   * registered program of the same shape has a file path, that path's type list is
   * replaced by this program's type names.
   */
  function CollectTypes(v: TreeView, program: Program): TreeView
  {
    var pkg := PackageNameOf(program);
    var file := CollectionFile(v.programs, program);
    v.(nodes := CollectNodes(v.nodes, pkg, program.definitions),
       fileToTypes := if file.Some? then v.fileToTypes[file.value := TypeNames(pkg, program.definitions)] else v.fileToTypes)
  }

  /** The first pass of construction: collection over every registered program, in order. */
  function CollectAll(v: TreeView, programs: seq<ProgramInfo>): TreeView
    decreases |programs|
  {
    if |programs| == 0 then v
    else CollectAll(CollectTypes(v, programs[0].program), programs[1..])
  }

  /** Collection changes only the nodes and the file-to-types map. */
  lemma {:induction false} CollectAllKeeps(v: TreeView, programs: seq<ProgramInfo>)
    ensures var r := CollectAll(v, programs);
      r.fileToPackage == v.fileToPackage && r.importGraph == v.importGraph &&
      r.programs == v.programs && r.packageToPrograms == v.packageToPrograms
    decreases |programs|
  {
    if |programs| > 0 {
      CollectAllKeeps(CollectTypes(v, programs[0].program), programs[1..]);
    }
  }

  /* ---------------------------------------------------------------------------------
   * Dependencies
   * --------------------------------------------------------------------------------- */

  /**
   * The resolved references of a schema's fields, resolved without a current file, or
   * the error of the first field whose reference does not resolve.
   */
  function FieldDependencies(v: TreeView, fields: seq<SchemaField>, program: Program): (r: Result<set<string>, TypeTreeError>)
  {
    if |fields| == 0 then Ok({})
    else
      var refs := Refs(fields[0].fieldType);
      var rest := FieldDependencies(v, fields[1..], program);
      if refs == [] then rest
      else match ResolveSchemaReference(v, refs[0], program, None)
        case Err(e) => Err(e)
        case Ok(q) => if rest.Ok? then Ok({q} + rest.value) else rest
  }

  /** The name field `i`'s reference resolves to, if it has one and it resolves. */
  predicate FieldResolvesTo(v: TreeView, fields: seq<SchemaField>, program: Program, i: int, q: string)
  {
    0 <= i < |fields| && Refs(fields[i].fieldType) != [] &&
    ResolveSchemaReference(v, Refs(fields[i].fieldType)[0], program, None) == Ok(q)
  }

  /** Field `i` has a reference that does not resolve. */
  predicate FieldFails(v: TreeView, fields: seq<SchemaField>, program: Program, i: int)
  {
    0 <= i < |fields| && Refs(fields[i].fieldType) != [] &&
    ResolveSchemaReference(v, Refs(fields[i].fieldType)[0], program, None).Err?
  }

  /** A schema's dependencies resolve exactly when every field's reference resolves. */
  lemma {:induction false} FieldDependenciesOk(v: TreeView, fields: seq<SchemaField>, program: Program)
    ensures FieldDependencies(v, fields, program).Ok? <==> forall i :: !FieldFails(v, fields, program, i)
  {
    if |fields| > 0 {
      var tail := fields[1..];
      FieldDependenciesOk(v, tail, program);
      if FieldDependencies(v, fields, program).Ok? {
        forall i | 1 <= i < |fields|
          ensures !FieldFails(v, fields, program, i)
        {
          assert fields[i] == tail[i - 1];
          assert !FieldFails(v, tail, program, i - 1);
        }
      } else if !FieldFails(v, fields, program, 0) {
        var i :| FieldFails(v, tail, program, i);
        assert fields[i + 1] == tail[i];
        assert FieldFails(v, fields, program, i + 1);
      }
    }
  }

  /** A schema's dependency set is exactly the names its fields' references resolve to. */
  lemma {:induction false} FieldDependenciesValue(v: TreeView, fields: seq<SchemaField>, program: Program, q: string)
    requires FieldDependencies(v, fields, program).Ok?
    ensures q in FieldDependencies(v, fields, program).value <==> exists i :: FieldResolvesTo(v, fields, program, i, q)
  {
    if |fields| > 0 {
      var tail := fields[1..];
      var refs := Refs(fields[0].fieldType);
      assert FieldDependencies(v, tail, program).Ok?;
      FieldDependenciesValue(v, tail, program, q);
      if refs != [] {
        var q0 := ResolveSchemaReference(v, refs[0], program, None).value;
        assert FieldDependencies(v, fields, program).value == {q0} + FieldDependencies(v, tail, program).value;
        assert FieldResolvesTo(v, fields, program, 0, q0);
      }
      if exists i :: FieldResolvesTo(v, tail, program, i, q) {
        var i :| FieldResolvesTo(v, tail, program, i, q);
        assert fields[i + 1] == tail[i];
        assert FieldResolvesTo(v, fields, program, i + 1, q);
      }
      if exists i :: FieldResolvesTo(v, fields, program, i, q) {
        var i :| FieldResolvesTo(v, fields, program, i, q);
        if i > 0 {
          assert fields[i] == tail[i - 1];
          assert FieldResolvesTo(v, tail, program, i - 1, q);
        }
      }
    }
  }

  /** A failure reports the error of the first field whose reference does not resolve. */
  lemma {:induction false} FieldDependenciesError(v: TreeView, fields: seq<SchemaField>, program: Program)
    requires FieldDependencies(v, fields, program).Err?
    ensures exists i :: FieldFails(v, fields, program, i) &&
                        FieldDependencies(v, fields, program).error == ResolveSchemaReference(v, Refs(fields[i].fieldType)[0], program, None).error &&
                        forall k :: 0 <= k < i ==> !FieldFails(v, fields, program, k)
  {
    var tail := fields[1..];
    if !FieldFails(v, fields, program, 0) {
      FieldDependenciesError(v, tail, program);
      var i :| FieldFails(v, tail, program, i) &&
               FieldDependencies(v, tail, program).error == ResolveSchemaReference(v, Refs(tail[i].fieldType)[0], program, None).error &&
               forall k :: 0 <= k < i ==> !FieldFails(v, tail, program, k);
      assert fields[i + 1] == tail[i];
      forall k | 1 <= k < i + 1
        ensures !FieldFails(v, fields, program, k)
      {
        assert fields[k] == tail[k - 1];
        assert !FieldFails(v, tail, program, k - 1);
      }
      assert FieldFails(v, fields, program, i + 1);
    }
  }

  /**
   * `build_dependencies_from_program` over `defs`: each schema's node gets its field
   * dependencies as its new set (a missing node is skipped); enums and services are
   * skipped; the first schema whose fields fail stops the pass with that error.
   */
  function BuildDependencies(v: TreeView, nodes: map<string, TypeNode>, pkg: string, defs: seq<Definition>, program: Program)
    : (r: (map<string, TypeNode>, Option<TypeTreeError>))
    ensures r.0.Keys == nodes.Keys
  {
    if |defs| == 0 then (nodes, None)
    else if defs[0].Schema? then
      var qn := QualifiedName(pkg, defs[0].schema.name);
      match FieldDependencies(v, defs[0].schema.fields, program)
      case Err(e) => (nodes, Some(e))
      case Ok(ds) =>
        var updated := if qn in nodes then nodes[qn := nodes[qn].(dependencies := ds)] else nodes;
        BuildDependencies(v, updated, pkg, defs[1..], program)
    else BuildDependencies(v, nodes, pkg, defs[1..], program)
  }

  /** The `j`-th definition is the last schema of its name. */
  predicate LastSchemaNamed(pkg: string, defs: seq<Definition>, j: int)
  {
    0 <= j < |defs| && defs[j].Schema? &&
    forall k :: j < k < |defs| && defs[k].Schema? ==> defs[k].schema.name != defs[j].schema.name
  }

  /**
   * On success, the node of each schema name holds the dependencies of the last schema
   * of that name, replacing what it held, while the rest of the node is untouched; a
   * node no schema names keeps its dependencies.
   */
  lemma {:induction false} BuildDependenciesMeaning(v: TreeView, nodes: map<string, TypeNode>, pkg: string, defs: seq<Definition>, program: Program)
    requires BuildDependencies(v, nodes, pkg, defs, program).1.None?
    ensures var r := BuildDependencies(v, nodes, pkg, defs, program).0;
      (forall j :: 0 <= j < |defs| && defs[j].Schema? ==> FieldDependencies(v, defs[j].schema.fields, program).Ok?) &&
      (forall j :: LastSchemaNamed(pkg, defs, j) && QualifiedName(pkg, defs[j].schema.name) in nodes ==>
         var qn := QualifiedName(pkg, defs[j].schema.name);
         r[qn] == nodes[qn].(dependencies := FieldDependencies(v, defs[j].schema.fields, program).value)) &&
      (forall n :: n in nodes && (forall j :: 0 <= j < |defs| && defs[j].Schema? ==> QualifiedName(pkg, defs[j].schema.name) != n) ==>
         r[n] == nodes[n])
  {
    if |defs| > 0 {
      var tail := defs[1..];
      forall j | 1 <= j < |defs| ensures defs[j] == tail[j - 1] { }
      if defs[0].Schema? {
        var qn := QualifiedName(pkg, defs[0].schema.name);
        var ds := FieldDependencies(v, defs[0].schema.fields, program).value;
        var updated := if qn in nodes then nodes[qn := nodes[qn].(dependencies := ds)] else nodes;
        BuildDependenciesMeaning(v, updated, pkg, tail, program);
        forall j | LastSchemaNamed(pkg, defs, j) && j > 0
          ensures LastSchemaNamed(pkg, tail, j - 1)
        {
        }
        if pkg != "" {
          forall j | 0 < j < |defs| && defs[j].Schema? && defs[j].schema.name != defs[0].schema.name
            ensures QualifiedName(pkg, defs[j].schema.name) != qn
          {
            QualifiedNameInjective(pkg, defs[j].schema.name, defs[0].schema.name);
          }
        }
      } else {
        BuildDependenciesMeaning(v, nodes, pkg, tail, program);
        forall j | LastSchemaNamed(pkg, defs, j)
          ensures j > 0 && LastSchemaNamed(pkg, tail, j - 1)
        {
        }
      }
    }
  }

  /** Within one package, different names give different qualified names. */
  lemma QualifiedNameInjective(pkg: string, a: string, b: string)
    requires a != b
    ensures QualifiedName(pkg, a) != QualifiedName(pkg, b)
  {
    if pkg != "" {
      assert (pkg + "." + a)[|pkg| + 1..] == a;
      assert (pkg + "." + b)[|pkg| + 1..] == b;
    }
  }

  /** The second pass of construction: dependency building over every registered program, stopping at the first error. */
  function BuildAll(v: TreeView, nodes: map<string, TypeNode>, programs: seq<ProgramInfo>)
    : (r: (map<string, TypeNode>, Option<TypeTreeError>))
    ensures r.0.Keys == nodes.Keys
  {
    if |programs| == 0 then (nodes, None)
    else
      var p := programs[0].program;
      var step := BuildDependencies(v, nodes, PackageNameOf(p), p.definitions, p);
      if step.1.Some? then step else BuildAll(v, step.0, programs[1..])
  }

  /**
   * Construction up to the cycle check: registration of every input, then collection
   * over all programs, then dependency building over all programs. The result is the
   * tree and the error of the first failing resolution, if any.
   */
  function Constructed(inputs: seq<(Program, Option<string>)>): (TreeView, Option<TypeTreeError>)
  {
    var registered := RegisterAll(EmptyView(), inputs);
    var collected := CollectAll(registered, registered.programs);
    var built := BuildAll(collected, collected.nodes, collected.programs);
    (collected.(nodes := built.0), built.1)
  }

  /* ---------------------------------------------------------------------------------
   * Resolution only looks at node names, file packages and import edges
   * --------------------------------------------------------------------------------- */

  /** Two views a resolution cannot tell apart. */
  predicate SameScope(a: TreeView, b: TreeView)
  {
    a.nodes.Keys == b.nodes.Keys && a.fileToPackage == b.fileToPackage && a.importGraph == b.importGraph
  }

  lemma {:induction false} FirstPresentSameKeys(a: map<string, TypeNode>, b: map<string, TypeNode>, cs: seq<string>)
    requires a.Keys == b.Keys
    ensures FirstPresent(a, cs) == FirstPresent(b, cs)
  {
    if |cs| > 0 {
      FirstPresentSameKeys(a, b, cs[1..]);
    }
  }

  lemma {:induction false} PackageCandidatesSameScope(a: TreeView, b: TreeView, files: seq<string>, name: string)
    requires a.fileToPackage == b.fileToPackage
    ensures PackageCandidates(a, files, name) == PackageCandidates(b, files, name)
  {
    if |files| > 0 {
      PackageCandidatesSameScope(a, b, files[1..], name);
    }
  }

  /** Updating dependency sets never changes how a reference resolves. */
  lemma ResolveSameScope(a: TreeView, b: TreeView, schemaRef: SchemaRef, program: Program, currentFile: Option<string>)
    requires SameScope(a, b)
    ensures ResolveSchemaReference(a, schemaRef, program, currentFile) == ResolveSchemaReference(b, schemaRef, program, currentFile)
  {
    if schemaRef.package.None? {
      var cs := UnqualifiedCandidates(a, program, currentFile, schemaRef.name);
      PackageCandidatesSameScope(a, b, ImportedFiles(a, program, currentFile), schemaRef.name);
      assert UnqualifiedCandidates(b, program, currentFile, schemaRef.name) == cs;
      FirstPresentSameKeys(a.nodes, b.nodes, cs);
    }
  }

  lemma {:induction false} FieldDependenciesSameScope(a: TreeView, b: TreeView, fields: seq<SchemaField>, program: Program)
    requires SameScope(a, b)
    ensures FieldDependencies(a, fields, program) == FieldDependencies(b, fields, program)
  {
    if |fields| > 0 {
      FieldDependenciesSameScope(a, b, fields[1..], program);
      var refs := Refs(fields[0].fieldType);
      if refs != [] {
        ResolveSameScope(a, b, refs[0], program, None);
      }
    }
  }

  lemma {:induction false} BuildDependenciesSameScope(a: TreeView, b: TreeView, nodes: map<string, TypeNode>, pkg: string,
                                                      defs: seq<Definition>, program: Program)
    requires SameScope(a, b)
    ensures BuildDependencies(a, nodes, pkg, defs, program) == BuildDependencies(b, nodes, pkg, defs, program)
  {
    if |defs| > 0 {
      if defs[0].Schema? {
        FieldDependenciesSameScope(a, b, defs[0].schema.fields, program);
        var qn := QualifiedName(pkg, defs[0].schema.name);
        var fd := FieldDependencies(a, defs[0].schema.fields, program);
        if fd.Ok? {
          var updated := if qn in nodes then nodes[qn := nodes[qn].(dependencies := fd.value)] else nodes;
          BuildDependenciesSameScope(a, b, updated, pkg, defs[1..], program);
        }
      } else {
        BuildDependenciesSameScope(a, b, nodes, pkg, defs[1..], program);
      }
    }
  }

  /** The dependencies gathered so far, joined with what the remaining fields contribute. */
  function Combine(deps: set<string>, rest: Result<set<string>, TypeTreeError>): (r: Result<set<string>, TypeTreeError>)
    ensures r.Ok? <==> rest.Ok?
    ensures rest.Ok? ==> r.value == deps + rest.value
    ensures rest.Err? ==> r == rest
  {
    if rest.Ok? then Ok(deps + rest.value) else rest
  }

  lemma CombineEmpty(x: Result<set<string>, TypeTreeError>)
    ensures Combine({}, x) == x
  {
    if x.Ok? {
      assert {} + x.value == x.value;
    }
  }

  /** One field further: what the field resolves to moves from the remaining fields into the gathered set. */
  lemma FieldStep(v: TreeView, fields: seq<SchemaField>, program: Program, j: nat, deps: set<string>)
    requires j < |fields|
    ensures var refs := Refs(fields[j].fieldType); var rest := FieldDependencies(v, fields[j + 1..], program);
      (refs == [] ==> Combine(deps, FieldDependencies(v, fields[j..], program)) == Combine(deps, rest)) &&
      (refs != [] ==>
         var res := ResolveSchemaReference(v, refs[0], program, None);
         (res.Ok? ==> Combine(deps, FieldDependencies(v, fields[j..], program)) == Combine(deps + {res.value}, rest)) &&
         (res.Err? ==> FieldDependencies(v, fields[j..], program) == Err(res.error)))
  {
    assert fields[j..][1..] == fields[j + 1..];
    var rest := FieldDependencies(v, fields[j + 1..], program);
    var refs := Refs(fields[j].fieldType);
    if refs != [] && rest.Ok? {
      var res := ResolveSchemaReference(v, refs[0], program, None);
      if res.Ok? {
        assert deps + ({res.value} + rest.value) == (deps + {res.value}) + rest.value;
      }
    }
  }

  /* ---------------------------------------------------------------------------------
   * What construction produces
   * --------------------------------------------------------------------------------- */

  /** Every dependency of every node is itself a node. */
  ghost predicate DepsClosed(nodes: map<string, TypeNode>)
  {
    forall n, d :: n in nodes && d in nodes[n].dependencies ==> d in nodes
  }

  /** What a schema's fields resolve to is always a registered type. */
  lemma {:induction false} FieldDependenciesInScope(v: TreeView, fields: seq<SchemaField>, program: Program)
    requires FieldDependencies(v, fields, program).Ok?
    ensures FieldDependencies(v, fields, program).value <= v.nodes.Keys
  {
    if |fields| > 0 {
      FieldDependenciesInScope(v, fields[1..], program);
    }
  }

  lemma {:induction false} BuildDependenciesClosed(v: TreeView, nodes: map<string, TypeNode>, pkg: string,
                                                   defs: seq<Definition>, program: Program)
    requires nodes.Keys == v.nodes.Keys && DepsClosed(nodes)
    ensures DepsClosed(BuildDependencies(v, nodes, pkg, defs, program).0)
  {
    if |defs| > 0 && defs[0].Schema? {
      var qn := QualifiedName(pkg, defs[0].schema.name);
      var fd := FieldDependencies(v, defs[0].schema.fields, program);
      if fd.Ok? {
        FieldDependenciesInScope(v, defs[0].schema.fields, program);
        var updated := if qn in nodes then nodes[qn := nodes[qn].(dependencies := fd.value)] else nodes;
        assert updated.Keys == nodes.Keys;
        BuildDependenciesClosed(v, updated, pkg, defs[1..], program);
      }
    } else if |defs| > 0 {
      BuildDependenciesClosed(v, nodes, pkg, defs[1..], program);
    }
  }

  lemma {:induction false} BuildAllClosed(v: TreeView, nodes: map<string, TypeNode>, programs: seq<ProgramInfo>)
    requires nodes.Keys == v.nodes.Keys && DepsClosed(nodes)
    ensures DepsClosed(BuildAll(v, nodes, programs).0)
  {
    if |programs| > 0 {
      var p := programs[0].program;
      BuildDependenciesClosed(v, nodes, PackageNameOf(p), p.definitions, p);
      BuildAllClosed(v, BuildDependencies(v, nodes, PackageNameOf(p), p.definitions, p).0, programs[1..]);
    }
  }

  lemma {:induction false} CollectAllFresh(v: TreeView, programs: seq<ProgramInfo>)
    requires FreshNodes(v.nodes)
    ensures FreshNodes(CollectAll(v, programs).nodes)
    decreases |programs|
  {
    if |programs| > 0 {
      var p := programs[0].program;
      CollectedNodesFresh(v.nodes, PackageNameOf(p), p.definitions);
      CollectAllFresh(CollectTypes(v, p), programs[1..]);
    }
  }

  /**
   * Whether construction succeeds or stops at an unresolved reference, every dependency
   * it recorded names a registered type.
   */
  lemma ConstructedClosed(inputs: seq<(Program, Option<string>)>)
    ensures DepsClosed(Constructed(inputs).0.nodes)
  {
    var registered := RegisterAll(EmptyView(), inputs);
    RegisterAllOrder(inputs, "");
    CollectAllFresh(registered, registered.programs);
    var collected := CollectAll(registered, registered.programs);
    BuildAllClosed(collected, collected.nodes, collected.programs);
  }

  /** Some registered program declares a schema or enum named `n`. */
  predicate DeclaredIn(programs: seq<ProgramInfo>, n: string)
  {
    exists i :: 0 <= i < |programs| && Declares(PackageNameOf(programs[i].program), programs[i].program.definitions, n)
  }

  lemma {:induction false} CollectAllKeys(v: TreeView, programs: seq<ProgramInfo>, n: string)
    ensures n in CollectAll(v, programs).nodes <==> n in v.nodes || DeclaredIn(programs, n)
    decreases |programs|
  {
    if |programs| > 0 {
      var p := programs[0].program;
      CollectNodesKeys(v.nodes, PackageNameOf(p), p.definitions, n);
      CollectAllKeys(CollectTypes(v, p), programs[1..], n);
      if DeclaredIn(programs[1..], n) {
        var i :| 0 <= i < |programs[1..]| && Declares(PackageNameOf(programs[1..][i].program), programs[1..][i].program.definitions, n);
        assert programs[i + 1] == programs[1..][i];
      }
      if DeclaredIn(programs, n) && !Declares(PackageNameOf(p), p.definitions, n) {
        var i :| 0 <= i < |programs| && Declares(PackageNameOf(programs[i].program), programs[i].program.definitions, n);
        assert programs[1..][i - 1] == programs[i];
      }
    }
  }

  /** The types of a constructed tree are exactly the schemas and enums its inputs declare, error or not. */
  lemma ConstructedTypes(inputs: seq<(Program, Option<string>)>, n: string)
    ensures n in Constructed(inputs).0.nodes <==>
              exists i :: 0 <= i < |inputs| && Declares(PackageNameOf(inputs[i].0), inputs[i].0.definitions, n)
  {
    var registered := RegisterAll(EmptyView(), inputs);
    RegisterAllOrder(inputs, "");
    CollectAllKeys(registered, registered.programs, n);
    if exists i :: 0 <= i < |inputs| && Declares(PackageNameOf(inputs[i].0), inputs[i].0.definitions, n) {
      var i :| 0 <= i < |inputs| && Declares(PackageNameOf(inputs[i].0), inputs[i].0.definitions, n);
      assert registered.programs[i].program == inputs[i].0;
    }
  }

  /* ---------------------------------------------------------------------------------
   * Adding one program
   * --------------------------------------------------------------------------------- */

  /**
   * `add_program_with_path`: registration under the given path, collection, then
   * dependency building for this program alone, with the error of the first reference
   * that does not resolve. A failure leaves the registration and the collected nodes in
   * place.
   */
  function AddedWithPath(v: TreeView, program: Program, filePath: string): (TreeView, Option<TypeTreeError>)
  {
    var collected := CollectTypes(Register(v, program, Some(filePath)), program);
    var built := BuildDependencies(collected, collected.nodes, PackageNameOf(program), program.definitions, program);
    (collected.(nodes := built.0), built.1)
  }

  /**
   * After adding a program, its file maps to its package and to one resolved import per
   * statement, it is the last program of its package, every schema and enum it declares
   * is a node, and on success each schema's node depends on exactly what its fields
   * resolve to.
   */
  lemma AddedWithPathMeaning(v: TreeView, program: Program, filePath: string, n: string, j: nat)
    requires IndicesValid(v)
    ensures var (r, err) := AddedWithPath(v, program, filePath); var pkg := PackageNameOf(program);
      IndicesValid(r) &&
      filePath in r.fileToPackage && r.fileToPackage[filePath] == pkg &&
      filePath in r.importGraph && r.importGraph[filePath] == ResolvedImports(filePath, program.imports) &&
      GetProgramsForPackage(r, pkg) == GetProgramsForPackage(v, pkg) + [program] &&
      (n in r.nodes <==> n in v.nodes || Declares(pkg, program.definitions, n)) &&
      (err.None? && LastSchemaNamed(pkg, program.definitions, j) ==>
         var qn := QualifiedName(pkg, program.definitions[j].schema.name);
         qn in r.nodes && FieldDependencies(r, program.definitions[j].schema.fields, program).Ok? &&
         r.nodes[qn].dependencies == FieldDependencies(r, program.definitions[j].schema.fields, program).value)
  {
    var pkg := PackageNameOf(program);
    var registered := Register(v, program, Some(filePath));
    var collected := CollectTypes(registered, program);
    var built := BuildDependencies(collected, collected.nodes, pkg, program.definitions, program);
    var r := collected.(nodes := built.0);
    RegisterAppendsProgram(v, program, Some(filePath), pkg);
    CollectNodesKeys(registered.nodes, pkg, program.definitions, n);
    if built.1.None? && LastSchemaNamed(pkg, program.definitions, j) {
      BuildDependenciesMeaning(collected, collected.nodes, pkg, program.definitions, program);
      var d := program.definitions[j];
      assert NameOf(pkg, d) == QualifiedName(pkg, d.schema.name);
      CollectNodesKeys(registered.nodes, pkg, program.definitions, NameOf(pkg, d));
      assert SameScope(r, collected);
      FieldDependenciesSameScope(r, collected, d.schema.fields, program);
    }
  }

  /* ---------------------------------------------------------------------------------
   * Cycle detection over dependency edges
   * --------------------------------------------------------------------------------- */

  /** The message of a `CircularDependency` error: the names of the cycle joined by arrows. */
  function CycleMessage(cycle: seq<string>): string
  {
    Join(cycle, " -> ")
  }

  /**
   * The message built from the open chain at a back edge, the chain from the repeated
   * name joined by arrows followed by the name again, is the message of a simple cycle.
   */
  lemma BackEdgeMessage(g: Graph, path: seq<string>, t: string)
    requires IsChain(g, path) && Distinct(path)
    requires t in path && |path| > 0 && t in Succ(g, path[|path| - 1])
    ensures exists c :: IsSimpleCycle(g, c) &&
                        CircularDependency(Join(path[Position(path, t)..], " -> ") + " -> " + t) == CircularDependency(CycleMessage(c))
  {
    var c := path[Position(path, t)..] + [t];
    BackEdgeCycle(g, path, t);
    JoinSnoc(path[Position(path, t)..], t, " -> ");
    assert IsSimpleCycle(g, c);
  }

  /** Each program paired with no file path. */
  function WithoutPaths(programs: seq<Program>): (r: seq<(Program, Option<string>)>)
    ensures |r| == |programs|
    ensures forall i :: 0 <= i < |programs| ==> r[i] == (programs[i], None)
  {
    seq(|programs|, i requires 0 <= i < |programs| => (programs[i], None))
  }

  /**
   * `detect_cycle_dfs`: opens `nodeName`, visits each not yet visited dependency in the
   * set's unspecified order, and reports the cycle closed by a dependency still open.
   * On success the name is finished and appended to the ghost post-order.
   * The tree is read as a value: the search changes nothing in it.
   */
  method DetectCycleDfs(v: TreeView, nodeName: string, visited: set<string>, recStack: set<string>, path: seq<string>,
                        ghost order: seq<string>)
    returns (r: Result<(), TypeTreeError>, visited': set<string>, recStack': set<string>, path': seq<string>,
             ghost order': seq<string>)
    requires DfsInv(DepGraph(v), visited, recStack, path, order)
    requires nodeName !in visited && nodeName in Nodes(DepGraph(v))
    requires |path| > 0 ==> nodeName in Succ(DepGraph(v), path[|path| - 1])
    ensures r.Err? ==> exists c :: IsSimpleCycle(DepGraph(v), c) && r.error == CircularDependency(CycleMessage(c))
    ensures r.Ok? ==> DfsDone(DepGraph(v), visited, recStack, path, order, nodeName, visited', recStack', path', order')
    decreases |Nodes(DepGraph(v)) - visited|, 1
  {
    ghost var g := DepGraph(v);
    DfsOpen(g, visited, recStack, path, order, nodeName);
    visited' := visited + {nodeName};
    recStack' := recStack + {nodeName};
    path' := path + [nodeName];
    order' := order;
    if nodeName in v.nodes {
      VisitShrinks(Nodes(g), visited, visited', nodeName);
      r, visited', recStack', path', order' :=
        VisitDependencies(v, nodeName, v.nodes[nodeName].dependencies, visited', recStack', path', order');
      if r.Err? {
        return;
      }
    }
    DfsFinish(g, visited, visited', recStack, path, order, order', nodeName);
    order' := order' + [nodeName];
    recStack' := recStack;
    path' := path;
    r := Ok(());
  }

  /**
   * The loop of `detect_cycle_dfs` over the dependencies of `nodeName`, the open name
   * at the end of the chain, in the set's unspecified iteration order: it stops at the
   * first back edge or the first cycle found deeper; otherwise every dependency is finished.
   */
  method VisitDependencies(v: TreeView, nodeName: string, dependencies: set<string>,
                           visited: set<string>, recStack: set<string>, path: seq<string>, ghost order: seq<string>)
    returns (r: Result<(), TypeTreeError>, visited': set<string>, recStack': set<string>, path': seq<string>,
             ghost order': seq<string>)
    requires DfsInv(DepGraph(v), visited, recStack, path, order)
    requires |path| > 0 && path[|path| - 1] == nodeName
    requires nodeName in v.nodes && dependencies == v.nodes[nodeName].dependencies
    ensures r.Err? ==> exists c :: IsSimpleCycle(DepGraph(v), c) && r.error == CircularDependency(CycleMessage(c))
    ensures r.Ok? ==> DfsInv(DepGraph(v), visited', recStack', path', order')
                      && path' == path && recStack' == recStack && visited <= visited'
                      && |order| <= |order'| && order'[..|order|] == order
                      && AllFinished(dependencies, order')
    decreases |Nodes(DepGraph(v)) - visited|, 2
  {
    ghost var g := DepGraph(v);
    visited', recStack', path', order' := visited, recStack, path, order;
    var rest := dependencies;
    while rest != {}
      invariant rest <= dependencies
      invariant DfsInv(g, visited', recStack', path', order')
      invariant path' == path && recStack' == recStack && visited <= visited'
      invariant |order| <= |order'| && order'[..|order|] == order
      invariant AllFinished(dependencies - rest, order')
      decreases |rest|
    {
      var dependency :| dependency in rest;
      ghost var before := order';
      if dependency !in visited' {
        SubsetCard(Nodes(g) - visited', Nodes(g) - visited);
        r, visited', recStack', path', order' := DetectCycleDfs(v, dependency, visited', recStack', path', order');
        if r.Err? {
          return;
        }
        PrefixGrows(order, before, order');
      } else if dependency in recStack' {
        var cycleStart := Position(path', dependency);
        var cyclePath := Join(path'[cycleStart..], " -> ");
        r := Err(CircularDependency(cyclePath + " -> " + dependency));
        BackEdgeMessage(g, path', dependency);
        return;
      }
      FinishedStep(dependencies, rest, dependency, before, order');
      rest := rest - {dependency};
    }
    assert dependencies - rest == dependencies;
    r := Ok(());
  }

  /** Every name of `done` is finished, i.e. already in `order`. */
  ghost predicate AllFinished(done: set<string>, order: seq<string>)
  {
    forall t :: t in done ==> t in order
  }

  lemma FinishedStep(dependencies: set<string>, rest: set<string>, t: string, before: seq<string>, after: seq<string>)
    requires AllFinished(dependencies - rest, before)
    requires forall x :: x in before ==> x in after
    requires t in after
    ensures AllFinished(dependencies - (rest - {t}), after)
  {
  }

  /* ---------------------------------------------------------------------------------
   * The type tree
   * --------------------------------------------------------------------------------- */

  /** `TypeTree`: the six maps and lists, updated in place while programs are added. */
  class TypeTree {
    var nodes: map<string, TypeNode>
    var fileToPackage: map<string, string>
    var packageToPrograms: map<string, seq<nat>>
    var programs: seq<ProgramInfo>
    var importGraph: map<string, seq<string>>
    var fileToTypes: map<string, seq<string>>

    /** The tree's contents as a value. */
    function View(): TreeView
      reads this
    {
      TreeView(nodes, fileToPackage, packageToPrograms, programs, importGraph, fileToTypes)
    }

    /** `TypeTree::new`: an empty tree. */
    constructor()
      ensures View() == EmptyView()
    {
      nodes := map[];
      fileToPackage := map[];
      packageToPrograms := map[];
      programs := [];
      importGraph := map[];
      fileToTypes := map[];
    }

    /** The registration steps shared by `add_program_with_path` and `from_programs_with_paths`. */
    method RegisterProgram(program: Program, filePath: Option<string>)
      modifies this
      ensures View() == Register(old(View()), program, filePath)
    {
      var pkg := PackageNameOf(program);
      var programIndex := |programs|;
      programs := programs + [ProgramInfo(program, filePath, Some(pkg))];
      if filePath.Some? {
        fileToPackage := fileToPackage[filePath.value := pkg];
        var importedFiles := [];
        for k := 0 to |program.imports|
          invariant importedFiles == ResolvedImports(filePath.value, program.imports[..k])
        {
          importedFiles := importedFiles + [ResolveImportPath(filePath.value, program.imports[k].path)];
        }
        assert program.imports[..|program.imports|] == program.imports;
        importGraph := importGraph[filePath.value := importedFiles];
      }
      var earlier := if pkg in packageToPrograms then packageToPrograms[pkg] else [];
      packageToPrograms := packageToPrograms[pkg := earlier + [programIndex]];
    }

    /** `collect_types_from_program`; it never fails. */
    method CollectTypesFromProgram(program: Program)
      modifies this
      ensures View() == CollectTypes(old(View()), program)
    {
      var pkg := PackageNameOf(program);
      var filePath: Option<string> := None;
      var i := 0;
      while i < |programs| && !SameShape(programs[i].program, program)
        invariant 0 <= i <= |programs|
        invariant forall k :: 0 <= k < i ==> !SameShape(programs[k].program, program)
      {
        i := i + 1;
      }
      if i < |programs| {
        CollectionFileIsFirst(programs, program, i);
        filePath := programs[i].filePath;
      }
      var defs := program.definitions;
      var fileTypes: seq<string> := [];
      for k := 0 to |defs|
        invariant View() == old(View()).(nodes := nodes)
        invariant nodes == CollectNodes(old(nodes), pkg, defs[..k])
        invariant fileTypes == TypeNames(pkg, defs[..k])
      {
        assert defs[..k + 1][..k] == defs[..k];
        var d := defs[k];
        if IsTypeDefinition(d) {
          nodes := nodes[NameOf(pkg, d) := NodeOf(pkg, d)];
          fileTypes := fileTypes + [NameOf(pkg, d)];
        }
      }
      assert defs[..|defs|] == defs;
      if filePath.Some? {
        fileToTypes := fileToTypes[filePath.value := fileTypes];
      }
    }

    /**
     * `build_dependencies_from_program`: each schema's dependencies are gathered field by
     * field; the first failing field ends the call with its error, keeping the updates
     * made to earlier schemas.
     */
    method BuildDependenciesFromProgram(program: Program) returns (r: Result<(), TypeTreeError>)
      modifies this
      ensures var b := BuildDependencies(old(View()), old(nodes), PackageNameOf(program), program.definitions, program);
        View() == old(View()).(nodes := b.0) && (r.Ok? <==> b.1.None?) && (r.Err? ==> r.error == b.1.value)
    {
      ghost var v0 := View();
      var pkg := PackageNameOf(program);
      var defs := program.definitions;
      for i := 0 to |defs|
        invariant View() == v0.(nodes := nodes) && nodes.Keys == v0.nodes.Keys
        invariant BuildDependencies(v0, v0.nodes, pkg, defs, program) == BuildDependencies(v0, nodes, pkg, defs[i..], program)
      {
        assert defs[i..][1..] == defs[i + 1..];
        assert defs[i..][0] == defs[i];
        ghost var before := nodes;
        if defs[i].Schema? {
          var schema := defs[i].schema;
          var qn := QualifiedName(pkg, schema.name);
          var deps: set<string> := {};
          assert schema.fields[0..] == schema.fields;
          CombineEmpty(FieldDependencies(v0, schema.fields, program));
          for j := 0 to |schema.fields|
            invariant View() == v0.(nodes := nodes) && nodes == before
            invariant Combine(deps, FieldDependencies(v0, schema.fields[j..], program)) == FieldDependencies(v0, schema.fields, program)
          {
            var field := schema.fields[j];
            FieldStep(v0, schema.fields, program, j, deps);
            var refs := Refs(field.fieldType);
            if refs != [] {
              assert SameScope(View(), v0);
              ResolveSameScope(View(), v0, refs[0], program, None);
            }
            var collected := CollectTypeDependencies(View(), field.fieldType, program, None, deps);
            if collected.Err? {
              assert FieldDependencies(v0, schema.fields, program) == Err(collected.error);
              assert BuildDependencies(v0, nodes, pkg, defs[i..], program) == (nodes, Some(collected.error));
              return Err(collected.error);
            }
            deps := collected.value;
          }
          assert schema.fields[|schema.fields|..] == [];
          assert FieldDependencies(v0, schema.fields, program) == Ok(deps);
          if qn in nodes {
            nodes := nodes[qn := nodes[qn].(dependencies := deps)];
          }
          assert BuildDependencies(v0, before, pkg, defs[i..], program) == BuildDependencies(v0, nodes, pkg, defs[i + 1..], program);
        }
      }
      return Ok(());
    }
  
    /** `add_program_with_path`: register, collect, then build this program's dependencies. */
    method AddProgramWithPath(program: Program, filePath: string) returns (r: Result<(), TypeTreeError>)
      modifies this
      ensures var (added, err) := AddedWithPath(old(View()), program, filePath);
        View() == added && (r.Ok? <==> err.None?) && (r.Err? ==> r.error == err.value)
    {
      RegisterProgram(program, Some(filePath));
      CollectTypesFromProgram(program);
      r := BuildDependenciesFromProgram(program);
    }

    /**
     * `validate_no_cycles`: a search from every not yet visited type, in the map's
     * unspecified order. It succeeds exactly when the dependency edges have no cycle, and
     * otherwise reports one simple cycle.
     */
    method ValidateNoCycles() returns (r: Result<(), TypeTreeError>)
      ensures r.Ok? <==> Acyclic(DepGraph(View()))
      ensures r.Err? ==> exists c :: IsSimpleCycle(DepGraph(View()), c) && r.error == CircularDependency(CycleMessage(c))
    {
      ghost var g := DepGraph(View());
      var visited: set<string> := {};
      var recStack: set<string> := {};
      var path: seq<string> := [];
      ghost var order: seq<string> := [];
      var rest := nodes.Keys;
      while rest != {}
        invariant rest <= nodes.Keys
        invariant DfsInv(g, visited, recStack, path, order) && path == [] && recStack == {}
        invariant forall n :: n in nodes && n !in rest ==> n in visited
        decreases |rest|
      {
        var qualifiedName :| qualifiedName in rest;
        if qualifiedName !in visited {
          r, visited, recStack, path, order := DetectCycleDfs(View(), qualifiedName, visited, recStack, path, order);
          if r.Err? {
            return;
          }
        }
        rest := rest - {qualifiedName};
      }
      PostOrderedAcyclic(g, order);
      r := Ok(());
    }

    /**
     * `from_programs_with_paths`: register every input, collect types from every program,
     * build every program's dependencies, then reject a dependency cycle. The first
     * error of any pass is returned.
     */
    static method FromProgramsWithPaths(inputs: seq<(Program, Option<string>)>) returns (r: Result<TypeTree, TypeTreeError>)
      ensures var (built, err) := Constructed(inputs);
        (err.Some? ==> r == Err(err.value)) &&
        (err.None? ==> (r.Ok? <==> Acyclic(DepGraph(built)))) &&
        (err.None? && r.Err? ==> exists c :: IsSimpleCycle(DepGraph(built), c) && r.error == CircularDependency(CycleMessage(c)))
      ensures r.Ok? ==> fresh(r.value) && r.value.View() == Constructed(inputs).0
    {
      var tree := new TypeTree();
      for i := 0 to |inputs|
        invariant fresh(tree)
        invariant tree.View() == RegisterAll(EmptyView(), inputs[..i])
      {
        assert inputs[..i + 1][..i] == inputs[..i];
        tree.RegisterProgram(inputs[i].0, inputs[i].1);
      }
      assert inputs[..|inputs|] == inputs;
      ghost var registered := tree.View();
      var programs := tree.programs;
      for i := 0 to |programs|
        invariant fresh(tree)
        invariant CollectAll(tree.View(), programs[i..]) == CollectAll(registered, programs)
      {
        assert programs[i..][1..] == programs[i + 1..];
        tree.CollectTypesFromProgram(programs[i].program);
      }
      assert programs[|programs|..] == [];
      ghost var collected := tree.View();
      CollectAllKeeps(registered, programs);
      for i := 0 to |programs|
        invariant fresh(tree)
        invariant tree.View() == collected.(nodes := tree.nodes) && tree.nodes.Keys == collected.nodes.Keys
        invariant BuildAll(collected, collected.nodes, programs) == BuildAll(collected, tree.nodes, programs[i..])
      {
        assert programs[i..][1..] == programs[i + 1..];
        var p := programs[i].program;
        assert SameScope(tree.View(), collected);
        BuildDependenciesSameScope(tree.View(), collected, tree.nodes, PackageNameOf(p), p.definitions, p);
        var built := tree.BuildDependenciesFromProgram(p);
        if built.Err? {
          return Err(built.error);
        }
      }
      assert programs[|programs|..] == [];
      var checked := tree.ValidateNoCycles();
      if checked.Err? {
        return Err(checked.error);
      }
      return Ok(tree);
    }

    /** `from_programs`: construction from programs that have no file path. */
    static method FromPrograms(programs: seq<Program>) returns (r: Result<TypeTree, TypeTreeError>)
      ensures var (built, err) := Constructed(WithoutPaths(programs));
        (err.Some? ==> r == Err(err.value)) &&
        (err.None? ==> (r.Ok? <==> Acyclic(DepGraph(built)))) &&
        (err.None? && r.Err? ==> exists c :: IsSimpleCycle(DepGraph(built), c) && r.error == CircularDependency(CycleMessage(c)))
      ensures r.Ok? ==> fresh(r.value) && r.value.View() == Constructed(WithoutPaths(programs)).0
    {
      r := FromProgramsWithPaths(WithoutPaths(programs));
    }
  }
}
