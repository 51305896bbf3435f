/**
 * The helpers of the older Rust emitter (`glass_codegen::rust`): the module path of a
 * located type, the Rust spelling of a field type, the dependency-first generation order
 * of types, the grouping of programs by package, `src/lib.rs`, the `mod.rs` hierarchy of
 * a package, and the order in which one program's enums and structs are emitted.
 */
module RustEmitter {
  import opened Wrappers
  import opened Seqs
  import opened Strings
  import opened Graphs
  import opened LegacyAst
  import Ast
  import RustTypes

  /** The one error the modelled helpers produce. */
  datatype CodeGeneratorError = CircularDependency(chain: string)

  /** A generated file: its path below the output directory and its text. */
  datatype GeneratorOutput = GeneratorOutput(path: string, content: string)

  /** A program paired with the file name it was read from. */
  type ProgramFile = (Program, string)

  /* ---------------------------------------------------------------------------------
   * Names and paths
   * --------------------------------------------------------------------------------- */

  /** A file name without its `.glass` extension, or unchanged when it has none. */
  function FileStem(fileName: string): string
  {
    StripSuffixOr(fileName, ".glass")
  }

  lemma StemOfGlassFile(stem: string)
    ensures FileStem(stem + ".glass") == stem
  {
    var s := stem + ".glass";
    assert s[|s| - |".glass"|..] == ".glass";
    var r := FileStem(s);
    assert r + ".glass" == stem + ".glass";
    assert r == (r + ".glass")[..|r|];
  }

  /** The package a program is grouped under: its dotted path, or `root` when it declares none. */
  function EmitterPackageName(program: Program): (r: string)
    ensures program.package.None? ==> r == "root"
    ensures program.package.Some? ==> r == PackageNameOf(program)
  {
    if program.package.Some? then PathString(program.package.value) else "root"
  }

  /** `get_qualified_name`: `pkg.Name` when the program declares a package, else the bare name. */
  function EmitterQualifiedName(typeName: string, program: Program): (r: string)
    ensures program.package.None? ==> r == typeName
    ensures program.package.Some? ==> r == PathString(program.package.value) + "." + typeName
  {
    if program.package.Some? then PathString(program.package.value) + "." + typeName else typeName
  }

  /** It is the type tree's qualified name, except for a declared package whose path is empty. */
  lemma QualifiedNamesAgree(typeName: string, program: Program)
    requires program.package.Some? ==> PathString(program.package.value) != ""
    ensures EmitterQualifiedName(typeName, program) == QualifiedName(PackageNameOf(program), typeName)
  {
  }

  /**
   * `generate_rust_path`: `crate::<package with '::'>::<stem>::<Name>`, or
   * `crate::<stem>::<Name>` without a package or in the package `root`. The type name is
   * the text after the last `.` of the qualified name.
   */
  function RustPath(qualifiedName: string, package: Option<string>, fileName: string): (r: string)
  {
    var stem := FileStem(fileName);
    var typeName := AfterLast(qualifiedName, '.');
    if package.Some? && package.value != "root" then
      "crate::" + ReplaceChar(package.value, '.', "::") + "::" + stem + "::" + typeName
    else "crate::" + stem + "::" + typeName
  }

  /**
   * The path's segments are `crate`, the package's segments, the stem and the type name:
   * the package's dots become path separators and nothing else is inserted.
   */
  lemma RustPathSegments(qualifiedName: string, pkg: string, fileName: string)
    requires pkg != "root"
    ensures RustPath(qualifiedName, Some(pkg), fileName) ==
            Join(["crate"] + Split(pkg, '.') + [FileStem(fileName), AfterLast(qualifiedName, '.')], "::")
  {
    assert "crate::" == "crate" + "::";
    var parts := Split(pkg, '.');
    PackageSeparators(pkg);
    JoinAround("crate", parts, FileStem(fileName), AfterLast(qualifiedName, '.'));
  }

  /** Replacing the dots of a package by `::` joins its segments with `::`. */
  lemma PackageSeparators(pkg: string)
    ensures ReplaceChar(pkg, '.', "::") == Join(Split(pkg, '.'), "::")
  {
    JoinSplit(pkg, '.');
    ReplaceJoin(Split(pkg, '.'), '.', "::");
  }

  /** Joining with `::` one part before and two parts after a non-empty list. */
  lemma JoinAround(first: string, parts: seq<string>, a: string, b: string)
    requires |parts| > 0
    ensures Join([first] + parts + [a, b], "::") == first + "::" + Join(parts, "::") + "::" + a + "::" + b
  {
    var j := Join(parts, "::");
    var tail := Join(parts + [a] + [b], "::");
    assert tail == j + "::" + a + "::" + b by {
      JoinSnoc(parts, a, "::");
      JoinSnoc(parts + [a], b, "::");
    }
    assert Join([first] + parts + [a, b], "::") == first + "::" + tail by {
      var all := [first] + (parts + [a] + [b]);
      assert [first] + parts + [a, b] == all;
      assert all[0] == first && all[1..] == parts + [a] + [b];
    }
    var f := first + "::";
    assert f + tail == f + j + "::" + a + "::" + b by {
      AppendAssoc(f, j + "::" + a + "::", b);
      AppendAssoc(f, j + "::" + a, "::");
      AppendAssoc(f, j + "::", a);
      AppendAssoc(f, j, "::");
    }
  }

  lemma RustPathRoot(qualifiedName: string, fileName: string)
    ensures RustPath(qualifiedName, None, fileName) == RustPath(qualifiedName, Some("root"), fileName)
    ensures RustPath(qualifiedName, None, fileName) ==
            Join(["crate", FileStem(fileName), AfterLast(qualifiedName, '.')], "::")
  {
    var stem := FileStem(fileName);
    var name := AfterLast(qualifiedName, '.');
    var parts := ["crate", stem, name];
    assert Join(parts[1..], "::") == stem + "::" + name by {
      assert parts[1..][1..] == [name];
    }
    assert Join(parts, "::") == "crate" + "::" + Join(parts[1..], "::");
    assert "crate::" == "crate" + "::";
  }

  /** `convert_primitive_to_rust`, the emitter's own copy of the primitive table. */
  function ConvertPrimitiveToRust(p: Ast.PrimitiveType): (r: string)
    ensures r == RustTypes.PrimitiveRustName(p)
  {
    match p
    case String => "String"
    case U8 => "u8"
    case U16 => "u16"
    case U32 => "u32"
    case U64 => "u64"
    case U128 => "u128"
    case I8 => "i8"
    case I16 => "i16"
    case I32 => "i32"
    case I64 => "i64"
    case I128 => "i128"
    case F32 => "f32"
    case F64 => "f64"
    case Bool => "bool"
  }

  /**
   * `generate_field_type`: primitives by name, `Option<…>` and `Vec<…>` around the inner
   * spelling, a qualified reference as `crate::<segments>::<lower-cased name>::<Name>`
   * and an unqualified one as a path into the referring file's own module.
   */
  function FieldType(t: Type, packageName: string, fileStem: string): string
  {
    match t
    case Primitive(p) => ConvertPrimitiveToRust(p)
    case Option(inner) => "Option<" + FieldType(inner, packageName, fileStem) + ">"
    case Vec(inner) => "Vec<" + FieldType(inner, packageName, fileStem) + ">"
    case Ref(schemaRef) =>
      if schemaRef.package.Some? then
        "crate::" + Join(schemaRef.package.value.segments, "::") + "::" + ToLower(schemaRef.name) + "::" + schemaRef.name
      else if packageName == "root" then "crate::" + fileStem + "::" + schemaRef.name
      else "crate::" + ReplaceChar(packageName, '.', "::") + "::" + fileStem + "::" + schemaRef.name
  }

  /** The same type in the newer AST, whose references carry only a name. */
  function AsAstType(t: Type): Ast.Type
  {
    match t
    case Primitive(p) => Ast.Type.Primitive(p)
    case Option(inner) => Ast.Type.Option(AsAstType(inner))
    case Vec(inner) => Ast.Type.Vector(AsAstType(inner))
    case Ref(schemaRef) => Ast.Type.Schema(Ast.SchemaRef(schemaRef.name))
  }

  /** On a type without references the emitter spells exactly what `util.rs` spells. */
  lemma {:induction false} FieldTypeAgreesWithUtil(t: Type, packageName: string, fileStem: string)
    requires Refs(t) == []
    ensures FieldType(t, packageName, fileStem) == RustTypes.ConvertAstTypeToRustType(AsAstType(t))
  {
    match t
    case Primitive(_) =>
    case Option(inner) => FieldTypeAgreesWithUtil(inner, packageName, fileStem);
    case Vec(inner) => FieldTypeAgreesWithUtil(inner, packageName, fileStem);
  }

  /**
   * An unqualified reference is spelled as the module path of that name in the referring
   * file, as `generate_rust_path` builds it.
   */
  lemma UnqualifiedRefIsRustPath(name: string, packageName: string, fileStem: string)
    requires '.' !in name
    ensures var t := Ref(SchemaRef(None, name));
      packageName == "root" ==> FieldType(t, packageName, fileStem) == RustPath(name, None, fileStem + ".glass")
    ensures var t := Ref(SchemaRef(None, name));
      packageName != "root" ==>
        FieldType(t, packageName, fileStem) == RustPath(packageName + "." + name, Some(packageName), fileStem + ".glass")
  {
    StemOfGlassFile(fileStem);
    BeforeAfterLastJoin(packageName, '.', name);
    assert packageName + "." + name == packageName + ['.'] + name;
    assert LastIndexOfChar(name, '.').None?;
  }

  /**
   * A qualified reference is spelled as the module path of the type in the file named
   * after the lower-cased type name, in the referenced package.
   */
  lemma QualifiedRefIsRustPath(path: PackagePath, name: string)
    requires '.' !in name && PathString(path) != "root"
    requires forall i :: 0 <= i < |path.segments| ==> '.' !in path.segments[i]
    ensures FieldType(Ref(SchemaRef(Some(path), name)), "", "") ==
            RustPath(PathString(path) + "." + name, Some(PathString(path)), ToLower(name) + ".glass")
  {
    var pkg := PathString(path);
    assert ReplaceChar(pkg, '.', "::") == Join(path.segments, "::") by {
      ReplaceJoin(path.segments, '.', "::");
    }
    RustPathParts(pkg + "." + name, pkg, ToLower(name) + ".glass", ToLower(name), name);
  }

  /** `generate_rust_path` for a package other than `root`, once its stem and type name are known. */
  lemma RustPathParts(qualifiedName: string, pkg: string, fileName: string, stem: string, typeName: string)
    requires pkg != "root" && stem + ".glass" == fileName
    requires '.' !in typeName && qualifiedName == pkg + "." + typeName
    ensures RustPath(qualifiedName, Some(pkg), fileName) ==
            "crate::" + ReplaceChar(pkg, '.', "::") + "::" + stem + "::" + typeName
  {
    StemOfGlassFile(stem);
    BeforeAfterLastJoin(pkg, '.', typeName);
    assert pkg + "." + typeName == pkg + ['.'] + typeName;
  }

  /* ---------------------------------------------------------------------------------
   * Generation order
   * --------------------------------------------------------------------------------- */

  /**
   * The graph a generation order follows: each located type points at those of its
   * dependencies that are located too; any other dependency is ignored.
   */
  function OrderGraph(locations: map<string, set<string>>): (g: Graph)
    ensures g.Keys == locations.Keys
  {
    map k | k in locations :: locations[k] * locations.Keys
  }

  /**
   * A generation order of the located types: each exactly once, and every located
   * dependency of a type before that type.
   */
  ghost predicate IsGenerationOrder(locations: map<string, set<string>>, order: seq<string>)
  {
    Distinct(order) && (forall x :: x in order <==> x in locations) && PostOrdered(OrderGraph(locations), order)
  }

  /** The text of the error raised on re-entering `name` while it is still being visited. */
  function InvolvingMessage(name: string): string
  {
    "Circular dependency involving " + name
  }

  /**
   * The state of the topological sort between visits: the names on the temporary mark
   * are exactly the open chain `path`, the visited ones are exactly those already in
   * `result`, and `result` lists them dependencies first.
   */
  ghost predicate SortInv(locations: map<string, set<string>>, visited: set<string>, tempMark: set<string>,
                          path: seq<string>, result: seq<string>)
  {
    visited + tempMark <= locations.Keys
    && DfsInv(OrderGraph(locations), visited + tempMark, tempMark, path, result)
    && (forall x :: x in visited <==> x in result)
  }

  /**
   * `topological_sort_visit`: a name still temporarily marked closes a cycle; a visited
   * name is done; otherwise the name is marked, its located dependencies are visited in
   * the set's unspecified order, and it is unmarked, marked visited and appended.
   */
  method TopologicalSortVisit(locations: map<string, set<string>>, name: string, visited: set<string>,
                              tempMark: set<string>, result: seq<string>, ghost path: seq<string>)
    returns (r: Result<(), CodeGeneratorError>, visited': set<string>, tempMark': set<string>, result': seq<string>)
    requires SortInv(locations, visited, tempMark, path, result)
    requires name in locations
    requires |path| > 0 ==> name in Succ(OrderGraph(locations), path[|path| - 1])
    ensures r.Err? ==> exists c :: IsSimpleCycle(OrderGraph(locations), c) && r.error == CircularDependency(InvolvingMessage(c[0]))
    ensures r.Ok? ==> SortInv(locations, visited', tempMark', path, result') && tempMark' == tempMark
                      && visited + {name} <= visited' && |result| <= |result'| && result'[..|result|] == result
    decreases |locations.Keys - (visited + tempMark)|, 0
  {
    if name in tempMark {
      SortReentry(locations, visited, tempMark, path, result, name);
      r := Err(CircularDependency(InvolvingMessage(name)));
      return r, visited, tempMark, result;
    }
    if name in visited {
      return Ok(()), visited, tempMark, result;
    }
    SortOpen(locations, visited, tempMark, path, result, name);
    r, visited', result' := VisitDependencies(locations, name, visited, tempMark + {name}, result, path + [name]);
    if r.Err? {
      return r, visited', tempMark, result';
    }
    SortClose(locations, visited, tempMark, path, result, visited', result', name);
    tempMark' := tempMark;
    visited' := visited' + {name};
    result' := result' + [name];
  }

  /**
   * The loop of `topological_sort_visit` over the dependencies of the name last marked:
   * each located one is visited, in the set's unspecified order; the first error stops it.
   */
  method VisitDependencies(locations: map<string, set<string>>, name: string, visited: set<string>,
                           tempMark: set<string>, result: seq<string>, ghost path: seq<string>)
    returns (r: Result<(), CodeGeneratorError>, visited': set<string>, result': seq<string>)
    requires SortInv(locations, visited, tempMark, path, result)
    requires name in locations && |path| > 0 && path[|path| - 1] == name
    ensures r.Err? ==> exists c :: IsSimpleCycle(OrderGraph(locations), c) && r.error == CircularDependency(InvolvingMessage(c[0]))
    ensures r.Ok? ==> SortInv(locations, visited', tempMark, path, result') && visited <= visited'
                      && |result| <= |result'| && result'[..|result|] == result
                      && forall t :: t in locations[name] && t in locations ==> t in visited'
    decreases |locations.Keys - (visited + tempMark)|, 1
  {
    var dependencies := locations[name];
    var rest := dependencies;
    visited' := visited;
    result' := result;
    r := Ok(());
    while rest != {}
      invariant rest <= dependencies
      invariant SortInv(locations, visited', tempMark, path, result')
      invariant visited <= visited' && |result| <= |result'| && result'[..|result|] == result
      invariant forall t :: t in dependencies && t in locations && t !in rest ==> t in visited'
      invariant r.Ok?
      decreases |rest|
    {
      var dependency :| dependency in rest;
      if dependency in locations {
        SubsetCard(locations.Keys - (visited' + tempMark), locations.Keys - (visited + tempMark));
        ghost var before := result';
        var tempMark';
        r, visited', tempMark', result' := TopologicalSortVisit(locations, dependency, visited', tempMark, result', path);
        if r.Err? {
          return;
        }
        PrefixGrows(result, before, result');
      }
      rest := rest - {dependency};
    }
  }

  /** A name re-entered from the end of the open chain starts a simple cycle. */
  lemma ReentryCycle(g: Graph, path: seq<string>, name: string)
    requires IsChain(g, path) && Distinct(path)
    requires name in path && |path| > 0 && name in Succ(g, path[|path| - 1])
    ensures exists c :: IsSimpleCycle(g, c) && c[0] == name
  {
    var c := path[Position(path, name)..] + [name];
    BackEdgeCycle(g, path, name);
    assert c[0] == name;
  }

  /** Re-entering a temporarily marked name from the end of the open chain closes a simple cycle. */
  lemma SortReentry(locations: map<string, set<string>>, visited: set<string>, tempMark: set<string>,
                    path: seq<string>, result: seq<string>, name: string)
    requires SortInv(locations, visited, tempMark, path, result)
    requires name in tempMark
    requires |path| > 0 ==> name in Succ(OrderGraph(locations), path[|path| - 1])
    ensures exists c :: IsSimpleCycle(OrderGraph(locations), c) && c[0] == name
  {
    ReentryCycle(OrderGraph(locations), path, name);
  }

  /**
   * Marking an unmarked, unvisited name at the end of the chain keeps the sort's state,
   * and leaves fewer names unmarked and unvisited.
   */
  lemma SortOpen(locations: map<string, set<string>>, visited: set<string>, tempMark: set<string>,
                 path: seq<string>, result: seq<string>, name: string)
    requires SortInv(locations, visited, tempMark, path, result)
    requires name in locations && name !in visited && name !in tempMark
    requires |path| > 0 ==> name in Succ(OrderGraph(locations), path[|path| - 1])
    ensures SortInv(locations, visited, tempMark + {name}, path + [name], result)
    ensures |path + [name]| > 0 && (path + [name])[|path + [name]| - 1] == name
    ensures |locations.Keys - (visited + (tempMark + {name}))| < |locations.Keys - (visited + tempMark)|
  {
    DfsOpen(OrderGraph(locations), visited + tempMark, tempMark, path, result, name);
    assert visited + (tempMark + {name}) == visited + tempMark + {name};
    VisitShrinks(locations.Keys, visited + tempMark, visited + (tempMark + {name}), name);
  }

  /**
   * Unmarking a name once its located dependencies are all visited appends it to the
   * result, which keeps the sort's state and extends the result it started from.
   */
  lemma SortClose(locations: map<string, set<string>>, visited: set<string>, tempMark: set<string>,
                  path: seq<string>, result: seq<string>, visited': set<string>, result': seq<string>, name: string)
    requires SortInv(locations, visited, tempMark, path, result)
    requires SortInv(locations, visited', tempMark + {name}, path + [name], result')
    requires name in locations && visited <= visited' && |result| <= |result'| && result'[..|result|] == result
    requires forall t :: t in locations[name] && t in locations ==> t in visited'
    ensures SortInv(locations, visited' + {name}, tempMark, path, result' + [name])
    ensures visited + {name} <= visited' + {name}
    ensures |result| <= |result' + [name]| && (result' + [name])[..|result|] == result
  {
    var g := OrderGraph(locations);
    DfsClose(g, visited' + (tempMark + {name}), tempMark, path, result', name);
    assert visited' + (tempMark + {name}) == (visited' + {name}) + tempMark;
    PrefixGrows(result, result', result' + [name]);
  }

  /**
   * `get_generation_order`: visits every located name not yet visited, in the map's
   * unspecified order. It succeeds exactly when the located dependencies have no cycle,
   * and then lists every located name once, dependencies first.
   */
  method GenerationOrder(locations: map<string, set<string>>) returns (r: Result<seq<string>, CodeGeneratorError>)
    ensures r.Ok? <==> Acyclic(OrderGraph(locations))
    ensures r.Ok? ==> IsGenerationOrder(locations, r.value)
    ensures r.Err? ==> exists c :: IsSimpleCycle(OrderGraph(locations), c) && r.error == CircularDependency(InvolvingMessage(c[0]))
  {
    var visited: set<string> := {};
    var tempMark: set<string> := {};
    var result: seq<string> := [];
    var rest := locations.Keys;
    while rest != {}
      invariant rest <= locations.Keys
      invariant SortInv(locations, visited, tempMark, [], result) && tempMark == {}
      invariant forall k :: k in locations && k !in rest ==> k in visited
      decreases |rest|
    {
      var qualifiedName :| qualifiedName in rest;
      if qualifiedName !in visited {
        var e;
        e, visited, tempMark, result := TopologicalSortVisit(locations, qualifiedName, visited, tempMark, result, []);
        if e.Err? {
          r := Err(e.error);
          return;
        }
      }
      rest := rest - {qualifiedName};
    }
    PostOrderedAcyclic(OrderGraph(locations), result);
    r := Ok(result);
  }

  /* ---------------------------------------------------------------------------------
   * Grouping and lib.rs
   * --------------------------------------------------------------------------------- */

  /** The program files of package `pkg`, in input order. */
  function FilesOf(files: seq<ProgramFile>, pkg: string): seq<ProgramFile>
  {
    if |files| == 0 then []
    else
      var last := files[|files| - 1];
      FilesOf(files[..|files| - 1], pkg) + (if EmitterPackageName(last.0) == pkg then [last] else [])
  }

  /** A file is listed under `pkg` exactly when it is one of the inputs and belongs to `pkg`. */
  lemma {:induction false} FilesOfMembers(files: seq<ProgramFile>, pkg: string, f: ProgramFile)
    ensures f in FilesOf(files, pkg) <==> f in files && EmitterPackageName(f.0) == pkg
  {
    if |files| > 0 {
      FilesOfMembers(files[..|files| - 1], pkg, f);
      assert files == files[..|files| - 1] + [files[|files| - 1]];
    }
  }

  /** A package no input declares has no files. */
  lemma {:induction false} NoFilesOf(files: seq<ProgramFile>, pkg: string)
    requires forall j :: 0 <= j < |files| ==> EmitterPackageName(files[j].0) != pkg
    ensures FilesOf(files, pkg) == []
  {
    if |files| > 0 {
      NoFilesOf(files[..|files| - 1], pkg);
    }
  }

  /**
   * `group_programs_by_package`: one entry per package that some input declares (`root`
   * for none), listing that package's files in input order.
   */
  method GroupProgramsByPackage(files: seq<ProgramFile>) returns (packages: map<string, seq<ProgramFile>>)
    ensures forall pkg :: pkg in packages <==> exists i :: 0 <= i < |files| && EmitterPackageName(files[i].0) == pkg
    ensures forall pkg :: pkg in packages ==> packages[pkg] == FilesOf(files, pkg)
  {
    packages := map[];
    for i := 0 to |files|
      invariant forall pkg :: pkg in packages <==> exists j :: 0 <= j < i && EmitterPackageName(files[j].0) == pkg
      invariant forall pkg :: pkg in packages ==> packages[pkg] == FilesOf(files[..i], pkg)
    {
      var packageName := EmitterPackageName(files[i].0);
      assert files[..i + 1][..i] == files[..i];
      if packageName !in packages {
        NoFilesOf(files[..i], packageName);
      }
      var group := if packageName in packages then packages[packageName] else [];
      packages := packages[packageName := group + [files[i]]];
    }
    assert files[..|files|] == files;
  }

  /** The least name of `s` in `str` order. */
  predicate IsLeast(m: string, s: set<string>)
  {
    m in s && forall x :: x in s && x != m ==> Less(m, x)
  }

  /** Every non-empty set of names has a least one. */
  lemma LeastExists(s: set<string>)
    requires s != {}
    ensures exists m :: IsLeast(m, s)
    decreases s
  {
    var x :| x in s;
    if s != {x} {
      LeastExists(s - {x});
      var m :| IsLeast(m, s - {x});
      if Less(x, m) {
        forall y | y in s && y != x
          ensures Less(x, y)
        {
          if y != m {
            LessTransitive(x, m, y);
          }
        }
        assert IsLeast(x, s);
      } else {
        LessTotal(x, m);
        assert IsLeast(m, s);
      }
    } else {
      assert IsLeast(x, s);
    }
  }

  lemma LeastUnique(s: set<string>, a: string, b: string)
    requires IsLeast(a, s) && IsLeast(b, s)
    ensures a == b
  {
    if a != b {
      LessTransitive(a, b, a);
      LessIrreflexive(a);
    }
  }

  /** The names of `s` in increasing `str` order: what `collect` and then `sort` give. */
  ghost function SortedNames(s: set<string>): (r: seq<string>)
    ensures |r| == |s|
    ensures forall x :: x in r <==> x in s
    decreases s
  {
    if s == {} then []
    else
      LeastExists(s);
      var m :| IsLeast(m, s);
      [m] + SortedNames(s - {m})
  }

  /** The sorted names start with the least one. */
  lemma SortedNamesFirst(s: set<string>, m: string)
    requires IsLeast(m, s)
    ensures SortedNames(s) == [m] + SortedNames(s - {m})
  {
    LeastExists(s);
    var k :| IsLeast(k, s) && SortedNames(s) == [k] + SortedNames(s - {k});
    LeastUnique(s, k, m);
  }

  predicate StrictlySorted(names: seq<string>)
  {
    forall i, j :: 0 <= i < j < |names| ==> Less(names[i], names[j])
  }

  /** The sorted names are in strictly increasing order, so each appears once. */
  lemma {:induction false} SortedNamesSorted(s: set<string>)
    ensures StrictlySorted(SortedNames(s))
    decreases s
  {
    if s != {} {
      LeastExists(s);
      var m :| IsLeast(m, s);
      SortedNamesFirst(s, m);
      SortedNamesSorted(s - {m});
      LeastFirst(m, SortedNames(s - {m}), s);
    }
  }

  lemma LeastFirst(m: string, rest: seq<string>, s: set<string>)
    requires IsLeast(m, s)
    requires forall x :: x in rest ==> x in s && x != m
    requires StrictlySorted(rest)
    ensures StrictlySorted([m] + rest)
  {
    var r := [m] + rest;
    forall i, j | 0 <= i < j < |r|
      ensures Less(r[i], r[j])
    {
      assert r[j] == rest[j - 1];
      if i > 0 {
        assert r[i] == rest[i - 1];
      }
    }
  }

  lemma SortedNamesStep(keys: set<string>, names: seq<string>, remaining: set<string>, least: string)
    requires SortedNames(keys) == names + SortedNames(remaining)
    requires IsLeast(least, remaining)
    ensures SortedNames(keys) == names + [least] + SortedNames(remaining - {least})
  {
    SortedNamesFirst(remaining, least);
    assert names + ([least] + SortedNames(remaining - {least})) == names + [least] + SortedNames(remaining - {least});
  }

  /** `keys().collect()` followed by `sort()`. */
  method SortPackageNames(keys: set<string>) returns (names: seq<string>)
    ensures names == SortedNames(keys)
  {
    names := [];
    var remaining := keys;
    while remaining != {}
      invariant SortedNames(keys) == names + SortedNames(remaining)
      decreases |remaining|
    {
      LeastExists(remaining);
      var least :| IsLeast(least, remaining);
      SortedNamesStep(keys, names, remaining, least);
      names := names + [least];
      remaining := remaining - {least};
    }
  }

  /** The line declaring module `m`. */
  function ModLine(m: string): string
  {
    "pub mod " + m + ";\n"
  }

  /** `pub mod <m>;` lines, one per module name, in order. */
  function ModLines(modules: seq<string>): string
  {
    if |modules| == 0 then ""
    else ModLines(modules[..|modules| - 1]) + ModLine(modules[|modules| - 1])
  }

  lemma {:induction false} ModLinesAppend(a: seq<string>, b: seq<string>)
    ensures ModLines(a + b) == ModLines(a) + ModLines(b)
    decreases |b|
  {
    if |b| == 0 {
      assert a + b == a;
    } else {
      assert (a + b)[..|a + b| - 1] == a + b[..|b| - 1];
      ModLinesAppend(a, b[..|b| - 1]);
    }
  }

  /** The file stems of `files`, in order. */
  function Stems(files: seq<ProgramFile>): (r: seq<string>)
    ensures |r| == |files|
    ensures forall i :: 0 <= i < |files| ==> r[i] == FileStem(files[i].1)
  {
    seq(|files|, i requires 0 <= i < |files| => FileStem(files[i].1))
  }

  /** The modules `lib.rs` declares for one package: each file of `root`, else the first segment. */
  function PackageModules(packageName: string, files: seq<ProgramFile>): seq<string>
  {
    if packageName == "root" then Stems(files) else [Split(packageName, '.')[0]]
  }

  /** The modules `lib.rs` declares for the packages `names`, in that order. */
  function LibModules(names: seq<string>, packages: map<string, seq<ProgramFile>>): seq<string>
    requires forall n :: n in names ==> n in packages
  {
    if |names| == 0 then []
    else
      var last := names[|names| - 1];
      LibModules(names[..|names| - 1], packages) + PackageModules(last, packages[last])
  }

  /**
   * `generate_lib_rs`: `src/lib.rs` declaring, package by package in sorted order, each
   * file of the root package and the first segment of any other package. Two packages
   * with the same first segment declare it twice.
   */
  method GenerateLibRs(packages: map<string, seq<ProgramFile>>) returns (output: GeneratorOutput)
    ensures output == GeneratorOutput("src/lib.rs", ModLines(LibModules(SortedNames(packages.Keys), packages)))
  {
    var packageNames := SortPackageNames(packages.Keys);
    var content := "";
    for i := 0 to |packageNames|
      invariant content == ModLines(LibModules(packageNames[..i], packages))
    {
      content := DeclarePackageModules(content, packageNames[i], packages[packageNames[i]]);
      LibModulesSnoc(packageNames, i, packages);
      ModLinesAppend(LibModules(packageNames[..i], packages), PackageModules(packageNames[i], packages[packageNames[i]]));
    }
    assert packageNames[..|packageNames|] == packageNames;
    output := GeneratorOutput("src/lib.rs", content);
  }

  lemma LibModulesSnoc(names: seq<string>, i: nat, packages: map<string, seq<ProgramFile>>)
    requires i < |names|
    requires forall n :: n in names ==> n in packages
    ensures LibModules(names[..i + 1], packages) == LibModules(names[..i], packages) + PackageModules(names[i], packages[names[i]])
  {
    assert names[..i + 1][..i] == names[..i];
  }

  lemma ModLinesSnoc(modules: seq<string>, m: string)
    ensures ModLines(modules + [m]) == ModLines(modules) + ModLine(m)
  {
    assert (modules + [m])[..|modules|] == modules;
  }

  /** The lines one package adds to `lib.rs`. */
  method DeclarePackageModules(content: string, packageName: string, files: seq<ProgramFile>) returns (r: string)
    ensures r == content + ModLines(PackageModules(packageName, files))
  {
    if packageName == "root" {
      r := DeclareFileModules(content, files);
    } else {
      var firstSegment := Split(packageName, '.')[0];
      r := content + ModLine(firstSegment);
      ModLinesSnoc([], firstSegment);
      assert [] + [firstSegment] == [firstSegment];
    }
  }

  /** One `pub mod <stem>;` line per file of the root package. */
  method DeclareFileModules(content: string, files: seq<ProgramFile>) returns (r: string)
    ensures r == content + ModLines(Stems(files))
  {
    r := content;
    for j := 0 to |files|
      invariant r == content + ModLines(Stems(files[..j]))
    {
      var stem := FileStem(files[j].1);
      assert Stems(files[..j + 1]) == Stems(files[..j]) + [stem];
      ModLinesSnoc(Stems(files[..j]), stem);
      r := r + ModLine(stem);
    }
    assert files[..|files|] == files;
  }

  lemma {:induction false} LibModulesMembers(names: seq<string>, packages: map<string, seq<ProgramFile>>)
    requires forall n :: n in names ==> n in packages
    ensures forall m :: m in LibModules(names, packages) <==> exists n :: n in names && m in PackageModules(n, packages[n])
    decreases |names|
  {
    if |names| > 0 {
      var init := names[..|names| - 1];
      LibModulesMembers(init, packages);
      forall m | m in LibModules(names, packages)
        ensures exists n :: n in names && m in PackageModules(n, packages[n])
      {
        if m in LibModules(init, packages) {
          var n :| n in init && m in PackageModules(n, packages[n]);
          assert n in names;
        } else {
          assert names[|names| - 1] in names;
        }
      }
      forall m, n | n in names && m in PackageModules(n, packages[n])
        ensures m in LibModules(names, packages)
      {
        if n != names[|names| - 1] {
          assert n in init by {
            var k :| 0 <= k < |names| && names[k] == n;
            assert init[k] == n;
          }
        }
      }
    }
  }

  /**
   * `lib.rs` declares exactly the first segment of every package other than `root`
   * and the stem of every file of the `root` package.
   */
  lemma LibDeclaresEveryPackage(packages: map<string, seq<ProgramFile>>, m: string)
    ensures m in LibModules(SortedNames(packages.Keys), packages) <==>
      (exists n :: n in packages && n != "root" && m == Split(n, '.')[0]) ||
      ("root" in packages && exists f :: f in packages["root"] && m == FileStem(f.1))
  {
    LibModulesMembers(SortedNames(packages.Keys), packages);
    if "root" in packages && exists f :: f in packages["root"] && m == FileStem(f.1) {
      var f :| f in packages["root"] && m == FileStem(f.1);
      var k :| 0 <= k < |packages["root"]| && packages["root"][k] == f;
      assert m == Stems(packages["root"])[k];
      assert m in PackageModules("root", packages["root"]);
    }
    if m in LibModules(SortedNames(packages.Keys), packages) {
      var n :| n in SortedNames(packages.Keys) && m in PackageModules(n, packages[n]);
      if n == "root" {
        var k :| 0 <= k < |packages["root"]| && Stems(packages["root"])[k] == m;
        assert packages["root"][k] in packages["root"];
      }
    }
  }

  /**
   * Two packages sharing their first segment (`com.users` and `com.posts`) declare it
   * twice: `lib.rs` does not de-duplicate.
   */
  lemma LibRepeatsSharedSegment(first: string, x: string, y: string, fx: ProgramFile, fy: ProgramFile)
    requires '.' !in first && '.' !in x && '.' !in y && x != y
    requires first + "." + x != "root"
    requires first + "." + y != "root"
    ensures var packages := map[first + "." + x := [fx], first + "." + y := [fy]];
      LibModules(SortedNames(packages.Keys), packages) == [first, first]
  {
    var p, q := first + "." + x, first + "." + y;
    assert p != q by {
      assert p[|first| + 1..] == x && q[|first| + 1..] == y;
    }
    FirstSegmentOf(first, x);
    FirstSegmentOf(first, y);
    LibTwoPackages(p, q, fx, fy, first);
  }

  lemma LibTwoPackages(p: string, q: string, fp: ProgramFile, fq: ProgramFile, m: string)
    requires p != q
    requires PackageModules(p, [fp]) == [m] && PackageModules(q, [fq]) == [m]
    ensures var packages := map[p := [fp], q := [fq]];
      LibModules(SortedNames(packages.Keys), packages) == [m, m]
  {
    var packages := map[p := [fp], q := [fq]];
    assert |packages.Keys| == 2;
    LibOfTwo(SortedNames(packages.Keys), packages, m);
  }

  lemma LibOfTwo(names: seq<string>, packages: map<string, seq<ProgramFile>>, m: string)
    requires |names| == 2
    requires forall n :: n in names ==> n in packages && PackageModules(n, packages[n]) == [m]
    ensures LibModules(names, packages) == [m, m]
  {
    LibModulesSnoc(names, 0, packages);
    LibModulesSnoc(names, 1, packages);
    assert names[..0] == [] && names[..2] == names;
  }

  lemma FirstSegmentOf(first: string, second: string)
    requires '.' !in first && '.' !in second
    ensures Split(first + "." + second, '.')[0] == first
  {
    SplitJoin([first, second], '.');
    assert Join([first, second], ".") == first + "." + second by {
      assert [first, second][1..] == [second];
    }
  }

  /** `src/<segments[..i] joined by '/'>/mod.rs`: the module file of the `i`-th package level. */
  function ModPath(segments: seq<string>, i: nat): string
    requires i <= |segments|
  {
    "src/" + Join(segments[..i], "/") + "/mod.rs"
  }

  predicate HasPath(outputs: seq<GeneratorOutput>, path: string)
  {
    exists k :: 0 <= k < |outputs| && outputs[k].path == path
  }

  /** The dotted names of every package some program declares. */
  function AllPackages(files: seq<ProgramFile>): set<string>
  {
    set k | 0 <= k < |files| && files[k].0.package.Some? :: PathString(files[k].0.package.value)
  }

  /**
   * The direct submodules at level `i` of the package `segments`, other than its own next
   * segment: segment `i` of each known package that has more than `i` segments and agrees
   * with `segments` on the first `i`.
   */
  function Submodules(allPackages: set<string>, segments: seq<string>, i: nat): (r: set<string>)
    requires i < |segments|
    ensures segments[i] !in r
  {
    set p | p in allPackages && SubmoduleOf(p, segments, i) :: Split(p, '.')[i]
  }

  predicate SubmoduleOf(p: string, segments: seq<string>, i: nat)
    requires i < |segments|
  {
    var parts := Split(p, '.');
    |parts| > i && Join(parts[..i], ".") == Join(segments[..i], ".") && parts[i] != segments[i]
  }

  /**
   * What the `mod.rs` of level `i` holds: an intermediate level declares the package's own
   * next segment, then every other submodule once in some order; the leaf level declares
   * each file of the package.
   */
  ghost predicate LevelContent(content: string, segments: seq<string>, i: nat, programFiles: seq<ProgramFile>, allPackages: set<string>)
    requires 1 <= i <= |segments|
  {
    if i < |segments| then
      exists order: seq<string> :: DeclaresOnce(order, Submodules(allPackages, segments, i)) &&
        content == ModLine(segments[i]) + ModLines(order)
    else
      content == ModLines(Stems(programFiles))
  }

  /** `order` lists every member of `names` exactly once. */
  ghost predicate DeclaresOnce(order: seq<string>, names: set<string>)
  {
    Distinct(order) && forall x :: x in order <==> x in names
  }

  /** An output the hierarchy adds: the `mod.rs` of some level, with that level's content. */
  ghost predicate IsLevelOutput(output: GeneratorOutput, segments: seq<string>, programFiles: seq<ProgramFile>, allPackages: set<string>)
  {
    exists i :: 1 <= i <= |segments| && output.path == ModPath(segments, i) &&
      LevelContent(output.content, segments, i, programFiles, allPackages)
  }

  /** The loop collecting `all_packages`. */
  method CollectAllPackages(files: seq<ProgramFile>) returns (allPackages: set<string>)
    ensures allPackages == AllPackages(files)
  {
    allPackages := {};
    for k := 0 to |files|
      invariant allPackages == AllPackages(files[..k])
    {
      AllPackagesSnoc(files, k);
      if files[k].0.package.Some? {
        allPackages := allPackages + {PathString(files[k].0.package.value)};
      }
    }
    assert files[..|files|] == files;
  }

  lemma AllPackagesSnoc(files: seq<ProgramFile>, k: nat)
    requires k < |files|
    ensures AllPackages(files[..k + 1]) ==
      AllPackages(files[..k]) + (if files[k].0.package.Some? then {PathString(files[k].0.package.value)} else {})
  {
    assert forall n :: 0 <= n < k ==> files[..k + 1][n] == files[..k][n];
    assert files[..k + 1][k] == files[k];
  }

  /** The loop over `all_packages` (in hash order) collecting the submodules of level `i`. */
  method CollectSubmodules(allPackages: set<string>, segments: seq<string>, i: nat) returns (submodules: set<string>)
    requires i < |segments|
    ensures submodules == Submodules(allPackages, segments, i)
  {
    var currentPrefix := Join(segments[..i], ".");
    submodules := {};
    var rest := allPackages;
    while rest != {}
      invariant rest <= allPackages
      invariant submodules == Submodules(allPackages - rest, segments, i)
      decreases |rest|
    {
      var package :| package in rest;
      var pkgSegments := Split(package, '.');
      if |pkgSegments| > i && currentPrefix == Join(pkgSegments[..i], ".") && pkgSegments[i] != segments[i] {
        submodules := submodules + {pkgSegments[i]};
      }
      rest := rest - {package};
    }
    assert allPackages - rest == allPackages;
  }

  /** The loop over `submodules` (in hash order): one line per submodule. */
  method DeclareSubmodules(content: string, submodules: set<string>) returns (r: string)
    ensures exists order :: DeclaresOnce(order, submodules) && r == content + ModLines(order)
  {
    r := content;
    ghost var order := [];
    var rest := submodules;
    while rest != {}
      invariant rest <= submodules
      invariant Distinct(order) && forall x :: x in order <==> x in submodules - rest
      invariant r == content + ModLines(order)
      decreases |rest|
    {
      var submodule :| submodule in rest;
      ModLinesSnoc(order, submodule);
      DistinctSnoc(order, submodule);
      r := r + ModLine(submodule);
      order := order + [submodule];
      rest := rest - {submodule};
    }
    assert DeclaresOnce(order, submodules);
  }

  /** The content of the `mod.rs` of level `i`. */
  method LevelModRs(segments: seq<string>, i: nat, programFiles: seq<ProgramFile>, allPackages: set<string>) returns (content: string)
    requires 1 <= i <= |segments|
    ensures LevelContent(content, segments, i, programFiles, allPackages)
  {
    if i < |segments| {
      var submodules := CollectSubmodules(allPackages, segments, i);
      content := DeclareSubmodules(ModLine(segments[i]), submodules);
    } else {
      content := DeclareFileModules("", programFiles);
    }
  }

  /**
   * `generate_package_hierarchy`: a `mod.rs` for every level of the package `segments`,
   * skipping any level whose file is already among the outputs. Existing outputs stay as
   * they are, every level ends up with a file, and each added file is the first with its
   * path and holds its level's declarations.
   */
  method GeneratePackageHierarchy(outputs: seq<GeneratorOutput>, segments: seq<string>, programFiles: seq<ProgramFile>, allFiles: seq<ProgramFile>)
    returns (r: seq<GeneratorOutput>)
    ensures |outputs| <= |r| && r[..|outputs|] == outputs
    ensures forall i :: 1 <= i <= |segments| ==> HasPath(r, ModPath(segments, i))
    ensures forall k :: |outputs| <= k < |r| ==>
      !HasPath(r[..k], r[k].path) && IsLevelOutput(r[k], segments, programFiles, AllPackages(allFiles))
  {
    var allPackages := CollectAllPackages(allFiles);
    r := outputs;
    for i := 1 to |segments| + 1
      invariant HierarchyInv(outputs, r, segments, i, programFiles, allPackages)
    {
      var modRsPath := ModPath(segments, i);
      if !HasPath(r, modRsPath) {
        var content := LevelModRs(segments, i, programFiles, allPackages);
        AppendLevel(outputs, r, GeneratorOutput(modRsPath, content), segments, i, programFiles, allPackages);
        r := r + [GeneratorOutput(modRsPath, content)];
      }
    }
  }

  /** The outputs after the levels below `i`: the original ones, then one new file per missing level. */
  ghost predicate HierarchyInv(outputs: seq<GeneratorOutput>, r: seq<GeneratorOutput>, segments: seq<string>, i: nat, programFiles: seq<ProgramFile>, allPackages: set<string>)
  {
    |outputs| <= |r| && r[..|outputs|] == outputs &&
    (forall l :: 1 <= l < i && l <= |segments| ==> HasPath(r, ModPath(segments, l))) &&
    forall k :: |outputs| <= k < |r| ==>
      !HasPath(r[..k], r[k].path) && IsLevelOutput(r[k], segments, programFiles, allPackages)
  }

  /** Appending level `i`'s file, when no output has its path yet, keeps the loop's invariants. */
  lemma AppendLevel(outputs: seq<GeneratorOutput>, r: seq<GeneratorOutput>, output: GeneratorOutput, segments: seq<string>, i: nat, programFiles: seq<ProgramFile>, allPackages: set<string>)
    requires 1 <= i <= |segments|
    requires HierarchyInv(outputs, r, segments, i, programFiles, allPackages)
    requires output.path == ModPath(segments, i) && !HasPath(r, output.path)
    requires LevelContent(output.content, segments, i, programFiles, allPackages)
    ensures HierarchyInv(outputs, r + [output], segments, i + 1, programFiles, allPackages)
  {
    var r' := r + [output];
    assert r'[|r|] == output;
    assert r'[..|r|] == r;
    assert r'[..|outputs|] == outputs;
    forall k | 0 <= k < |r|
      ensures r'[..k] == r[..k] && r'[k] == r[k]
    {
    }
    forall l | 1 <= l <= i
      ensures HasPath(r', ModPath(segments, l))
    {
      if l < i {
        assert HasPath(r, ModPath(segments, l));
        var k :| 0 <= k < |r| && r[k].path == ModPath(segments, l);
        assert r'[k].path == ModPath(segments, l);
      }
    }
    assert IsLevelOutput(output, segments, programFiles, allPackages);
  }

  /** `p` has a segment `i` and agrees with `segments` on the first `i` (compared as dotted text). */
  predicate ChildAt(p: string, segments: seq<string>, i: nat)
    requires i <= |segments|
  {
    var parts := Split(p, '.');
    |parts| > i && Join(parts[..i], ".") == Join(segments[..i], ".")
  }

  /**
   * For a known package, the `mod.rs` of an intermediate level declares exactly the
   * segment `i` of every known package under the same prefix: the package's own next
   * segment on the first line, every other one among the submodules.
   */
  lemma LevelDeclaresEveryChild(allPackages: set<string>, segments: seq<string>, i: nat, m: string)
    requires 1 <= i < |segments|
    requires Join(segments, ".") in allPackages
    requires forall k :: 0 <= k < |segments| ==> '.' !in segments[k]
    ensures m == segments[i] || m in Submodules(allPackages, segments, i) <==>
      exists p :: p in allPackages && ChildAt(p, segments, i) && Split(p, '.')[i] == m
  {
    var own := Join(segments, ".");
    SplitJoin(segments, '.');
    assert ChildAt(own, segments, i);
    if m in Submodules(allPackages, segments, i) {
      var p :| p in allPackages && SubmoduleOf(p, segments, i) && Split(p, '.')[i] == m;
      assert ChildAt(p, segments, i);
    }
    if exists p :: p in allPackages && ChildAt(p, segments, i) && Split(p, '.')[i] == m {
      var p :| p in allPackages && ChildAt(p, segments, i) && Split(p, '.')[i] == m;
      if m != segments[i] {
        assert SubmoduleOf(p, segments, i);
      }
    }
  }
}
