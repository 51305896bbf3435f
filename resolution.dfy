/**
 * Resolution of schema references over a type tree (`type_tree/resolution.rs`): the
 * fixed lookup order for unqualified names, the accessibility rule for qualified ones,
 * the reverse-dependency closure, the set of types a file can reach and the
 * error-collecting validation of a program's field types.
 *
 * The source finds the file of the program being resolved by pointer identity; here
 * that file is the explicit parameter `currentFile` (`None` when the program is not one
 * of the registered ones, as during construction).
 */
module Resolution {
  import opened Wrappers
  import opened Seqs
  import opened Strings
  import opened Graphs
  import opened LegacyAst
  import opened TypeTreeModels

  /** The paths of a program's import statements, in statement order. */
  function ImportPaths(p: Program): (r: seq<string>)
    ensures |r| == |p.imports|
    ensures forall k :: 0 <= k < |p.imports| ==> r[k] == p.imports[k].path
  {
    seq(|p.imports|, k requires 0 <= k < |p.imports| => p.imports[k].path)
  }

  /**
   * The files whose packages an unqualified reference tries last: the resolved import
   * edges of the current file when it is known, the raw import strings otherwise.
   */
  function ImportedFiles(v: TreeView, program: Program, currentFile: Option<string>): (r: seq<string>)
    ensures currentFile.Some? && currentFile.value in v.importGraph ==> r == v.importGraph[currentFile.value]
    ensures currentFile.Some? && currentFile.value !in v.importGraph ==> r == []
    ensures currentFile.None? ==> r == ImportPaths(program)
  {
    match currentFile
    case Some(f) => if f in v.importGraph then v.importGraph[f] else []
    case None => ImportPaths(program)
  }

  /** `pkg.name` for each listed file that has a registered package, in list order. */
  function PackageCandidates(v: TreeView, files: seq<string>, name: string): (r: seq<string>)
    ensures |r| <= |files|
    ensures forall c :: c in r <==> exists t :: t in files && t in v.fileToPackage && c == v.fileToPackage[t] + "." + name
  {
    if |files| == 0 then []
    else
      var rest := PackageCandidates(v, files[1..], name);
      assert forall t :: t in files <==> t == files[0] || t in files[1..];
      if files[0] in v.fileToPackage then [v.fileToPackage[files[0]] + "." + name] + rest else rest
  }

  /**
   * Every name an unqualified reference tries, in order: the current package (when it is
   * not the root), the bare root name, then each imported file's package.
   */
  function UnqualifiedCandidates(v: TreeView, program: Program, currentFile: Option<string>, name: string): (r: seq<string>)
    ensures |r| == (if PackageNameOf(program) == "" then 1 else 2) + |PackageCandidates(v, ImportedFiles(v, program, currentFile), name)|
    ensures PackageNameOf(program) != "" ==> r[0] == PackageNameOf(program) + "." + name && r[1] == name
    ensures PackageNameOf(program) == "" ==> r[0] == name
    ensures r[if PackageNameOf(program) == "" then 1 else 2..] == PackageCandidates(v, ImportedFiles(v, program, currentFile), name)
  {
    var pkg := PackageNameOf(program);
    (if pkg != "" then [pkg + "." + name] else []) + [name] + PackageCandidates(v, ImportedFiles(v, program, currentFile), name)
  }

  /** The first candidate that names a node, if any. */
  function FirstPresent(nodes: map<string, TypeNode>, candidates: seq<string>): (r: Option<string>)
    ensures r.None? <==> forall i :: 0 <= i < |candidates| ==> candidates[i] !in nodes
    ensures r.Some? ==> r.value in nodes
    ensures r.Some? ==> exists i :: 0 <= i < |candidates| && candidates[i] == r.value &&
                          forall j :: 0 <= j < i ==> candidates[j] !in nodes
  {
    if |candidates| == 0 then None
    else if candidates[0] in nodes then Some(candidates[0])
    else
      var r := FirstPresent(nodes, candidates[1..]);
      if r.Some? then
        var i :| 0 <= i < |candidates[1..]| && candidates[1..][i] == r.value &&
                 forall j :: 0 <= j < i ==> candidates[1..][j] !in nodes;
        assert candidates[i + 1] == r.value;
        r
      else r
  }

  /** The name a failed unqualified lookup reports: the reference and every name it tried. */
  function NotFoundName(name: string, attempted: seq<string>): string
  {
    name + " (tried: " + Join(attempted, ", ") + ")"
  }

  /** Some listed file has a registered package equal to `pkg`. */
  function AnyFileInPackage(v: TreeView, files: seq<string>, pkg: string): (r: bool)
    ensures r <==> exists k :: 0 <= k < |files| && files[k] in v.fileToPackage && v.fileToPackage[files[k]] == pkg
  {
    if |files| == 0 then false
    else if files[0] in v.fileToPackage && v.fileToPackage[files[0]] == pkg then true
    else
      var r := AnyFileInPackage(v, files[1..], pkg);
      assert forall k :: 1 <= k < |files| ==> files[k] == files[1..][k - 1];
      r
  }

  /**
   * `is_type_accessible`: the type's package (the text before its last `.`) is the
   * package of `fromFile`, or of a registered file that `fromFile` imports directly.
   */
  function IsTypeAccessible(v: TreeView, fromFile: string, qualifiedTypeName: string): (r: bool)
    ensures r <==>
      var pkg := ExtractPackageFromQualifiedName(qualifiedTypeName);
      (fromFile in v.fileToPackage && v.fileToPackage[fromFile] == pkg) ||
      (fromFile in v.importGraph &&
        exists k :: 0 <= k < |v.importGraph[fromFile]| && v.importGraph[fromFile][k] in v.fileToPackage &&
                    v.fileToPackage[v.importGraph[fromFile][k]] == pkg)
  {
    var pkg := ExtractPackageFromQualifiedName(qualifiedTypeName);
    if fromFile in v.fileToPackage && v.fileToPackage[fromFile] == pkg then true
    else if fromFile in v.importGraph then AnyFileInPackage(v, v.importGraph[fromFile], pkg)
    else false
  }

  /** The name a qualified reference denotes: its package path, a `.`, its name. */
  function QualifiedRefName(schemaRef: SchemaRef): string
    requires schemaRef.package.Some?
  {
    PathString(schemaRef.package.value) + "." + schemaRef.name
  }

  /**
   * `resolve_schema_reference`. A qualified reference must name an existing node and,
   * when the current file is known, one accessible from it. An unqualified reference
   * resolves to the first of its candidates that names a node, with no accessibility
   * check and no ambiguity check; when none does, the error lists every candidate.
   */
  function ResolveSchemaReference(v: TreeView, schemaRef: SchemaRef, program: Program, currentFile: Option<string>): (r: Result<string, TypeTreeError>)
    ensures r.Ok? ==> r.value in v.nodes
    ensures r.Err? && r.error.TypeNotAccessible? ==> schemaRef.package.Some? && currentFile.Some?
    ensures schemaRef.package.Some? ==>
      var q := QualifiedRefName(schemaRef);
      (r.Ok? <==> q in v.nodes && (currentFile.Some? ==> IsTypeAccessible(v, currentFile.value, q))) &&
      (r.Ok? ==> r.value == q) &&
      (q !in v.nodes ==> r == Err(TypeNotFound(q))) &&
      (q in v.nodes && currentFile.Some? && !IsTypeAccessible(v, currentFile.value, q) ==>
         r == Err(TypeNotAccessible(q, currentFile.value)))
    ensures schemaRef.package.None? ==>
      var cs := UnqualifiedCandidates(v, program, currentFile, schemaRef.name);
      (r.Ok? <==> exists i :: 0 <= i < |cs| && cs[i] in v.nodes) &&
      (r.Ok? ==> exists i :: 0 <= i < |cs| && cs[i] == r.value && forall j :: 0 <= j < i ==> cs[j] !in v.nodes) &&
      (r.Err? ==> r.error == TypeNotFound(NotFoundName(schemaRef.name, cs)))
  {
    if schemaRef.package.Some? then
      var q := QualifiedRefName(schemaRef);
      if q !in v.nodes then Err(TypeNotFound(q))
      else if currentFile.Some? && !IsTypeAccessible(v, currentFile.value, q) then
        Err(TypeNotAccessible(q, currentFile.value))
      else Ok(q)
    else
      var cs := UnqualifiedCandidates(v, program, currentFile, schemaRef.name);
      match FirstPresent(v.nodes, cs)
      case Some(found) => Ok(found)
      case None => Err(TypeNotFound(NotFoundName(schemaRef.name, cs)))
  }

  /** The local package shadows the root and every import. */
  lemma LocalPackageFirst(v: TreeView, schemaRef: SchemaRef, program: Program, currentFile: Option<string>)
    requires schemaRef.package.None? && PackageNameOf(program) != ""
    requires PackageNameOf(program) + "." + schemaRef.name in v.nodes
    ensures ResolveSchemaReference(v, schemaRef, program, currentFile) == Ok(PackageNameOf(program) + "." + schemaRef.name)
  {
  }

  /** The root name is tried after the local package and before any import. */
  lemma RootBeforeImports(v: TreeView, schemaRef: SchemaRef, program: Program, currentFile: Option<string>)
    requires schemaRef.package.None?
    requires PackageNameOf(program) == "" || PackageNameOf(program) + "." + schemaRef.name !in v.nodes
    requires schemaRef.name in v.nodes
    ensures ResolveSchemaReference(v, schemaRef, program, currentFile) == Ok(schemaRef.name)
  {
    var cs := UnqualifiedCandidates(v, program, currentFile, schemaRef.name);
    if PackageNameOf(program) == "" {
      assert cs[0] == schemaRef.name;
    } else {
      assert cs[0] !in v.nodes && cs[1] == schemaRef.name;
    }
  }

  /**
   * When neither the local nor the root name exists, the result is the first imported
   * package that holds the name, in import order: the earliest import wins.
   */
  lemma ImportsInOrder(v: TreeView, schemaRef: SchemaRef, program: Program, currentFile: Option<string>)
    requires schemaRef.package.None?
    requires PackageNameOf(program) == "" || PackageNameOf(program) + "." + schemaRef.name !in v.nodes
    requires schemaRef.name !in v.nodes
    ensures ResolveSchemaReference(v, schemaRef, program, currentFile) ==
      match FirstPresent(v.nodes, PackageCandidates(v, ImportedFiles(v, program, currentFile), schemaRef.name))
      case Some(q) => Ok(q)
      case None => Err(TypeNotFound(NotFoundName(schemaRef.name, UnqualifiedCandidates(v, program, currentFile, schemaRef.name))))
  {
    var cs := UnqualifiedCandidates(v, program, currentFile, schemaRef.name);
    var n := if PackageNameOf(program) == "" then 1 else 2;
    FirstPresentSkips(v.nodes, cs, n);
  }

  /** Candidates before `n` that name no node do not change the first hit. */
  lemma {:induction false} FirstPresentSkips(nodes: map<string, TypeNode>, cs: seq<string>, n: nat)
    requires n <= |cs|
    requires forall j :: 0 <= j < n ==> cs[j] !in nodes
    ensures FirstPresent(nodes, cs) == FirstPresent(nodes, cs[n..])
  {
    if n > 0 {
      assert cs[1..][n - 1..] == cs[n..];
      FirstPresentSkips(nodes, cs[1..], n - 1);
    }
  }

  /**
   * `collect_type_dependencies`: a primitive adds nothing, `Option` and `Vec` are
   * transparent at any depth, and a schema reference adds exactly its resolved name or
   * fails with the resolution error.
   */
  method CollectTypeDependencies(v: TreeView, t: Type, program: Program, currentFile: Option<string>, deps: set<string>)
    returns (r: Result<set<string>, TypeTreeError>)
    ensures Refs(t) == [] ==> r == Ok(deps)
    ensures Refs(t) != [] ==>
      var res := ResolveSchemaReference(v, Refs(t)[0], program, currentFile);
      (res.Ok? ==> r == Ok(deps + {res.value})) && (res.Err? ==> r == Err(res.error))
    decreases t
  {
    match t
    case Primitive(_) =>
      r := Ok(deps);
    case Option(inner) =>
      r := CollectTypeDependencies(v, inner, program, currentFile, deps);
    case Vec(inner) =>
      r := CollectTypeDependencies(v, inner, program, currentFile, deps);
    case Ref(schemaRef) =>
      var res := ResolveSchemaReference(v, schemaRef, program, currentFile);
      if res.Err? {
        r := Err(res.error);
      } else {
        r := Ok(deps + {res.value});
      }
  }

  /**
   * `get_all_affected_types`: the type itself and every type that depends on it directly
   * or through a chain of dependencies, i.e. everything from which it can be reached in
   * the dependency graph.
   */
  method GetAllAffectedTypes(v: TreeView, qualifiedName: string) returns (result: set<string>)
    ensures qualifiedName in result
    ensures forall y :: y in result <==> Reaches(DepGraph(v), y, qualifiedName)
  {
    ghost var g := DepGraph(v);
    ghost var universe := v.nodes.Keys + {qualifiedName};
    result := {};
    var toProcess := [qualifiedName];
    var processed: set<string> := {};
    ReachesRefl(g, qualifiedName);
    while |toProcess| > 0
      invariant result == processed && processed <= universe
      invariant AllReach(g, processed, qualifiedName)
      invariant WaitingReach(g, toProcess, universe, qualifiedName)
      invariant qualifiedName in processed || qualifiedName in toProcess
      invariant PredecessorsWaiting(g, processed, toProcess)
      decreases |universe - processed|, |toProcess|
    {
      var current := toProcess[|toProcess| - 1];
      SplitLast(toProcess);
      toProcess := toProcess[..|toProcess| - 1];
      if current !in processed {
        ghost var oldProcessed := processed;
        VisitShrinks(universe, processed, processed + {current}, current);
        processed := processed + {current};
        result := result + {current};
        ghost var before := toProcess;
        toProcess := PushDependents(v, current, processed, toProcess);
        PushStep(v, qualifiedName, oldProcessed, before, current, toProcess);
      } else {
        PopProcessed(g, processed, toProcess, current, universe, qualifiedName);
      }
    }
    DoneClosed(g, processed);
    forall y | Reaches(g, y, qualifiedName)
      ensures y in result
    {
      var p :| |p| >= 1 && p[0] == y && p[|p| - 1] == qualifiedName && IsChain(g, p);
      BackwardClosed(g, processed, qualifiedName, p);
    }
  }

  /** Every member of `s` reaches `x`. */
  ghost predicate AllReach(g: Graph, s: set<string>, x: string)
  {
    forall y :: y in s ==> Reaches(g, y, x)
  }

  /** Every predecessor of a processed name is processed or waiting. */
  ghost predicate PredecessorsWaiting(g: Graph, processed: set<string>, waiting: seq<string>)
  {
    forall y, z :: z in processed && z in Succ(g, y) ==> y in processed || y in waiting
  }

  /** Every waiting name is a node or `x` itself, and reaches `x`. */
  ghost predicate WaitingReach(g: Graph, waiting: seq<string>, universe: set<string>, x: string)
  {
    forall i :: 0 <= i < |waiting| ==> waiting[i] in universe && Reaches(g, waiting[i], x)
  }

  /**
   * Processing `current` and pushing its unprocessed dependents keeps every waiting name
   * reaching `x` and the worklist closed under predecessors.
   */
  lemma PushStep(v: TreeView, x: string, processed: set<string>, before: seq<string>, current: string, after: seq<string>)
    requires WaitingReach(DepGraph(v), before + [current], v.nodes.Keys + {x}, x)
    requires PredecessorsWaiting(DepGraph(v), processed, before + [current])
    requires |after| >= |before| && after[..|before|] == before
    requires forall i :: |before| <= i < |after| ==> after[i] in DependentsOf(v, current)
    requires forall d :: d in DependentsOf(v, current) ==> d in processed + {current} || d in after
    ensures WaitingReach(DepGraph(v), after, v.nodes.Keys + {x}, x)
    ensures PredecessorsWaiting(DepGraph(v), processed + {current}, after)
  {
    var g := DepGraph(v);
    assert (before + [current])[|before|] == current;
    forall i | 0 <= i < |after|
      ensures after[i] in v.nodes.Keys + {x} && Reaches(g, after[i], x)
    {
      if i < |before| {
        assert after[i] == before[i] == (before + [current])[i];
      } else {
        ReachesPrepend(g, after[i], current, x);
      }
    }
    forall y | current in Succ(g, y)
      ensures y in processed + {current} || y in after
    {
      assert y in DependentsOf(v, current);
    }
    ClosureStep(g, processed, before, current, after);
  }

  /** Dropping a name that is already processed from the worklist keeps it closed. */
  lemma PopProcessed(g: Graph, processed: set<string>, rest: seq<string>, current: string, universe: set<string>, x: string)
    requires PredecessorsWaiting(g, processed, rest + [current]) && current in processed
    requires WaitingReach(g, rest + [current], universe, x)
    ensures PredecessorsWaiting(g, processed, rest)
    ensures WaitingReach(g, rest, universe, x)
  {
    assert forall i :: 0 <= i < |rest| ==> rest[i] == (rest + [current])[i];
  }

  /** A worklist that has run empty leaves the processed set closed under predecessors. */
  lemma DoneClosed(g: Graph, processed: set<string>)
    requires PredecessorsWaiting(g, processed, [])
    ensures ClosedUnderPredecessors(g, processed)
  {
  }

  /**
   * Pushes onto `toProcess` each dependent of `current` that is not yet processed, in
   * the order `get_dependents` lists them.
   */
  method PushDependents(v: TreeView, current: string, processed: set<string>, toProcess: seq<string>) returns (r: seq<string>)
    ensures |r| >= |toProcess| && r[..|toProcess|] == toProcess
    ensures forall i :: |toProcess| <= i < |r| ==> r[i] in DependentsOf(v, current) && r[i] !in processed
    ensures forall d :: d in DependentsOf(v, current) ==> d in processed || d in r
  {
    var dependents := GetDependents(v, current);
    r := toProcess;
    var k := 0;
    while k < |dependents|
      invariant 0 <= k <= |dependents|
      invariant |r| >= |toProcess| && r[..|toProcess|] == toProcess
      invariant forall i :: |toProcess| <= i < |r| ==> r[i] in DependentsOf(v, current) && r[i] !in processed
      invariant forall i :: 0 <= i < k ==> dependents[i] in processed || dependents[i] in r
    {
      if dependents[k] !in processed {
        r := r + [dependents[k]];
      }
      k := k + 1;
    }
  }

  /**
   * Processing `current` keeps the worklist closed under predecessors: a predecessor of a
   * processed name is processed or still waiting.
   */
  lemma ClosureStep(g: Graph, processed: set<string>, before: seq<string>, current: string, after: seq<string>)
    requires PredecessorsWaiting(g, processed, before + [current])
    requires forall y :: current in Succ(g, y) ==> y in processed + {current} || y in after
    requires |after| >= |before| && after[..|before|] == before
    ensures PredecessorsWaiting(g, processed + {current}, after)
  {
    forall y, z | z in processed + {current} && z in Succ(g, y)
      ensures y in processed + {current} || y in after
    {
      if z != current && y !in processed && y != current {
        assert y in before + [current];
        var i :| 0 <= i < |before| && before[i] == y;
        assert after[i] == y;
      }
    }
  }

  /** The packages of the listed files that are registered. */
  function PackagesOfFiles(v: TreeView, files: seq<string>): set<string>
  {
    set t | t in files && t in v.fileToPackage :: v.fileToPackage[t]
  }

  /** The node names whose package is one of `packages`. */
  function TypesInPackages(v: TreeView, packages: set<string>): set<string>
  {
    set n | n in v.nodes && ExtractPackageFromQualifiedName(n) in packages
  }

  /**
   * What a file can reach: nothing when the file is unknown, otherwise the types of its
   * own package and of the packages of the registered files it imports directly.
   */
  function ReachableTypesOf(v: TreeView, fromFile: string): set<string>
  {
    if fromFile in v.fileToPackage then
      TypesInPackages(v, {v.fileToPackage[fromFile]} +
        PackagesOfFiles(v, if fromFile in v.importGraph then v.importGraph[fromFile] else []))
    else {}
  }

  /** The reachable types of a known file are exactly the nodes accessible from it. */
  lemma ReachableIffAccessible(v: TreeView, fromFile: string, n: string)
    ensures fromFile !in v.fileToPackage ==> ReachableTypesOf(v, fromFile) == {}
    ensures n in ReachableTypesOf(v, fromFile) <==>
              fromFile in v.fileToPackage && n in v.nodes && IsTypeAccessible(v, fromFile, n)
  {
    var pkg := ExtractPackageFromQualifiedName(n);
    if fromFile in v.fileToPackage && fromFile in v.importGraph && n in v.nodes {
      var imp := v.importGraph[fromFile];
      if pkg in PackagesOfFiles(v, imp) {
        var t :| t in imp && t in v.fileToPackage && v.fileToPackage[t] == pkg;
        var k :| 0 <= k < |imp| && imp[k] == t;
      }
      if exists k :: 0 <= k < |imp| && imp[k] in v.fileToPackage && v.fileToPackage[imp[k]] == pkg {
        var k :| 0 <= k < |imp| && imp[k] in v.fileToPackage && v.fileToPackage[imp[k]] == pkg;
        assert pkg in PackagesOfFiles(v, imp);
      }
    }
  }

  /**
   * Reachability is not transitive: with `a` importing `b` and `b` importing `c`, a type
   * of `c`'s package is reachable from `b` but not from `a`.
   */
  lemma ReachabilityNotTransitive()
    ensures
      var v := TreeView(
        map["pc.T" := TypeNode("pc.T", EnumDefinition(EnumDef("T", [])), {})],
        map["a" := "pa", "b" := "pb", "c" := "pc"], map[], [],
        map["a" := ["b"], "b" := ["c"]], map[]);
      "pc.T" in ReachableTypesOf(v, "b") && "pc.T" !in ReachableTypesOf(v, "a")
  {
    var v := TreeView(
        map["pc.T" := TypeNode("pc.T", EnumDefinition(EnumDef("T", [])), {})],
        map["a" := "pa", "b" := "pb", "c" := "pc"], map[], [],
        map["a" := ["b"], "b" := ["c"]], map[]);
    PackageOfQualifiedName("pc", "T");
    assert QualifiedName("pc", "T") == "pc.T";
    assert "c" in ["c"] && v.fileToPackage["c"] == "pc";
    assert "pc" in PackagesOfFiles(v, ["c"]);
    assert forall p :: p in PackagesOfFiles(v, ["b"]) ==> p == "pb";
  }

  /** Adds every node of package `pkg`; the nodes are scanned in the map's order. */
  method AddTypesOfPackage(v: TreeView, pkg: string, acc: set<string>) returns (r: set<string>)
    ensures r == acc + TypesInPackages(v, {pkg})
  {
    r := acc;
    var rest := v.nodes.Keys;
    while rest != {}
      invariant rest <= v.nodes.Keys
      invariant r == acc + (TypesInPackages(v, {pkg}) - rest)
      decreases |rest|
    {
      var name :| name in rest;
      if ExtractPackageFromQualifiedName(name) == pkg {
        r := r + {name};
      }
      rest := rest - {name};
    }
  }

  /** `get_reachable_types` */
  method GetReachableTypes(v: TreeView, fromFile: string) returns (result: set<string>)
    ensures result == ReachableTypesOf(v, fromFile)
  {
    result := {};
    if fromFile in v.fileToPackage {
      var filePackage := v.fileToPackage[fromFile];
      result := AddTypesOfPackage(v, filePackage, result);
      var imported := if fromFile in v.importGraph then v.importGraph[fromFile] else [];
      var j := 0;
      while j < |imported|
        invariant 0 <= j <= |imported|
        invariant result == TypesInPackages(v, {filePackage} + PackagesOfFiles(v, imported[..j]))
      {
        assert imported[..j + 1] == imported[..j] + [imported[j]];
        var t := imported[j];
        if t in v.fileToPackage {
          assert PackagesOfFiles(v, imported[..j + 1]) == PackagesOfFiles(v, imported[..j]) + {v.fileToPackage[t]};
          result := AddTypesOfPackage(v, v.fileToPackage[t], result);
        } else {
          assert PackagesOfFiles(v, imported[..j + 1]) == PackagesOfFiles(v, imported[..j]);
        }
        j := j + 1;
      }
      assert imported[..j] == imported;
    }
  }

  /** The file that declares the type's package and lists the type among its own. */
  predicate DefinesType(v: TreeView, filePath: string, qualifiedName: string)
  {
    filePath in v.fileToPackage && v.fileToPackage[filePath] == ExtractPackageFromQualifiedName(qualifiedName) &&
    filePath in v.fileToTypes && qualifiedName in v.fileToTypes[filePath]
  }

  /** `find_file_for_type`: some file that defines the type, scanned in the map's order, or None. */
  method FindFileForType(v: TreeView, qualifiedName: string) returns (r: Option<string>)
    ensures r.Some? ==> DefinesType(v, r.value, qualifiedName)
    ensures r.None? <==> forall f :: f in v.fileToPackage ==> !DefinesType(v, f, qualifiedName)
  {
    var rest := v.fileToPackage.Keys;
    while rest != {}
      invariant rest <= v.fileToPackage.Keys
      invariant forall f :: f in v.fileToPackage && f !in rest ==> !DefinesType(v, f, qualifiedName)
      decreases |rest|
    {
      var f :| f in rest;
      if DefinesType(v, f, qualifiedName) {
        return Some(f);
      }
      rest := rest - {f};
    }
    return None;
  }

  /**
   * `validate_type_reference`: primitives pass, `Option`/`Vec` recurse, and a schema
   * reference must resolve and, when a reachable set is given and the file is known,
   * lie in that set.
   */
  function ValidateTypeReference(v: TreeView, t: Type, program: Program, reachable: set<string>, currentFile: Option<string>)
    : Result<(), TypeTreeError>
  {
    match t
    case Primitive(_) => Ok(())
    case Option(inner) => ValidateTypeReference(v, inner, program, reachable, currentFile)
    case Vec(inner) => ValidateTypeReference(v, inner, program, reachable, currentFile)
    case Ref(schemaRef) =>
      match ResolveSchemaReference(v, schemaRef, program, currentFile)
      case Err(e) => Err(e)
      case Ok(q) =>
        if reachable != {} && q !in reachable && currentFile.Some? then
          Err(TypeNotAccessible(q, currentFile.value))
        else Ok(())
  }

  /**
   * A type without a schema reference is valid. One with a reference fails with the
   * resolution error, or with `TypeNotAccessible` when a reachable set is given, the
   * file is known and the resolved name lies outside the set; otherwise it is valid.
   */
  lemma {:induction false} ValidateTypeReferenceMeaning(v: TreeView, t: Type, program: Program, reachable: set<string>, currentFile: Option<string>)
    ensures Refs(t) == [] ==> ValidateTypeReference(v, t, program, reachable, currentFile) == Ok(())
    ensures Refs(t) != [] ==>
      var r := ValidateTypeReference(v, t, program, reachable, currentFile);
      var res := ResolveSchemaReference(v, Refs(t)[0], program, currentFile);
      (res.Err? ==> r == Err(res.error)) &&
      (res.Ok? ==> (r.Ok? <==> reachable == {} || res.value in reachable || currentFile.None?)) &&
      (res.Ok? && r.Err? ==> r.error == TypeNotAccessible(res.value, currentFile.value))
  {
    match t
    case Primitive(_) =>
    case Option(inner) => ValidateTypeReferenceMeaning(v, inner, program, reachable, currentFile);
    case Vec(inner) => ValidateTypeReferenceMeaning(v, inner, program, reachable, currentFile);
    case Ref(_) =>
  }

  /** The field types of every schema definition, in declaration order; enums and services add none. */
  function SchemaFieldTypes(definitions: seq<Definition>): seq<Type>
  {
    if |definitions| == 0 then []
    else
      OwnFieldTypes(definitions[0]) + SchemaFieldTypes(definitions[1..])
  }

  /** The field types of one definition: those of a schema, none for an enum. */
  function OwnFieldTypes(d: Definition): seq<Type>
  {
    if d.Schema? then FieldTypesOf(d.schema.fields) else []
  }

  function FieldTypesOf(fields: seq<SchemaField>): seq<Type>
  {
    seq(|fields|, i requires 0 <= i < |fields| => fields[i].fieldType)
  }

  lemma FieldTypesOfMembers(fields: seq<SchemaField>)
    ensures forall t :: t in FieldTypesOf(fields) <==> exists f :: f in fields && f.fieldType == t
  {
    forall t | t in FieldTypesOf(fields)
      ensures exists f :: f in fields && f.fieldType == t
    {
      var i :| 0 <= i < |fields| && FieldTypesOf(fields)[i] == t;
      assert fields[i] in fields;
    }
    forall f | f in fields
      ensures f.fieldType in FieldTypesOf(fields)
    {
      var i :| 0 <= i < |fields| && fields[i] == f;
      assert FieldTypesOf(fields)[i] == f.fieldType;
    }
  }

  /** One error per failing type, in order. */
  function ReferenceErrors(v: TreeView, types: seq<Type>, program: Program, reachable: set<string>, currentFile: Option<string>)
    : (r: seq<TypeTreeError>)
    ensures |r| <= |types|
    ensures r == [] <==> forall i :: 0 <= i < |types| ==> ValidateTypeReference(v, types[i], program, reachable, currentFile).Ok?
  {
    if |types| == 0 then []
    else
      var rest := ReferenceErrors(v, types[1..], program, reachable, currentFile);
      assert forall i :: 1 <= i < |types| ==> types[i] == types[1..][i - 1];
      match ValidateTypeReference(v, types[0], program, reachable, currentFile)
      case Err(e) => [e] + rest
      case Ok(_) => rest
  }

  lemma {:induction false} ReferenceErrorsAppend(v: TreeView, a: seq<Type>, b: seq<Type>, program: Program, reachable: set<string>, currentFile: Option<string>)
    ensures ReferenceErrors(v, a + b, program, reachable, currentFile) ==
            ReferenceErrors(v, a, program, reachable, currentFile) + ReferenceErrors(v, b, program, reachable, currentFile)
  {
    if |a| == 0 {
      assert a + b == b;
    } else {
      assert (a + b)[1..] == a[1..] + b;
      ReferenceErrorsAppend(v, a[1..], b, program, reachable, currentFile);
    }
  }

  lemma ReferenceErrorsCons(v: TreeView, types: seq<Type>, program: Program, reachable: set<string>, currentFile: Option<string>)
    requires |types| > 0
    ensures var check := ValidateTypeReference(v, types[0], program, reachable, currentFile);
      ReferenceErrors(v, types, program, reachable, currentFile) ==
        (if check.Err? then [check.error] else []) + ReferenceErrors(v, types[1..], program, reachable, currentFile)
  {
  }

  /** The errors of one schema's fields, one per failing field, in field order. */
  method FieldErrors(v: TreeView, fields: seq<SchemaField>, program: Program, reachable: set<string>, currentFile: Option<string>)
    returns (errors: seq<TypeTreeError>)
    ensures errors == ReferenceErrors(v, FieldTypesOf(fields), program, reachable, currentFile)
  {
    ghost var types := FieldTypesOf(fields);
    errors := [];
    var j := 0;
    while j < |fields|
      invariant 0 <= j <= |fields|
      invariant errors + ReferenceErrors(v, types[j..], program, reachable, currentFile) ==
                ReferenceErrors(v, types, program, reachable, currentFile)
    {
      ReferenceErrorsCons(v, types[j..], program, reachable, currentFile);
      assert types[j..][0] == fields[j].fieldType && types[j..][1..] == types[j + 1..];
      var check := ValidateTypeReference(v, fields[j].fieldType, program, reachable, currentFile);
      if check.Err? {
        assert errors + ([check.error] + ReferenceErrors(v, types[j + 1..], program, reachable, currentFile)) ==
               (errors + [check.error]) + ReferenceErrors(v, types[j + 1..], program, reachable, currentFile);
        errors := errors + [check.error];
      }
      j := j + 1;
    }
    assert types[j..] == [];
  }

  /** The reachable set validation uses: that of the current file, or empty when it is unknown. */
  function ReachableSet(v: TreeView, currentFile: Option<string>): set<string>
  {
    if currentFile.Some? then ReachableTypesOf(v, currentFile.value) else {}
  }

  /**
   * `validate_type_references`: every field of every schema is checked and each failure
   * contributes its error; Ok exactly when there is none.
   */
  method ValidateTypeReferences(v: TreeView, program: Program, currentFile: Option<string>)
    returns (r: Result<(), seq<TypeTreeError>>)
    ensures var errors := ReferenceErrors(v, SchemaFieldTypes(program.definitions), program, ReachableSet(v, currentFile), currentFile);
      r == if errors == [] then Ok(()) else Err(errors)
  {
    var reachable: set<string> := {};
    if currentFile.Some? {
      reachable := GetReachableTypes(v, currentFile.value);
    }
    ghost var goal := ReferenceErrors(v, SchemaFieldTypes(program.definitions), program, reachable, currentFile);
    var errors: seq<TypeTreeError> := [];
    var defs := program.definitions;
    var i := 0;
    while i < |defs|
      invariant 0 <= i <= |defs|
      invariant goal == errors + ReferenceErrors(v, SchemaFieldTypes(defs[i..]), program, reachable, currentFile)
    {
      ghost var own := ReferenceErrors(v, OwnFieldTypes(defs[i]), program, reachable, currentFile);
      ghost var rest := ReferenceErrors(v, SchemaFieldTypes(defs[i + 1..]), program, reachable, currentFile);
      DefinitionErrorsStep(v, defs, i, program, reachable, currentFile);
      if defs[i].Schema? {
        var fieldErrors := FieldErrors(v, defs[i].schema.fields, program, reachable, currentFile);
        AppendAssoc(errors, own, rest);
        errors := errors + fieldErrors;
      } else {
        assert own == [] && own + rest == rest;
      }
      i := i + 1;
    }
    assert defs[i..] == [] && errors + [] == errors;
    assert reachable == ReachableSet(v, currentFile);
    if errors == [] {
      r := Ok(());
    } else {
      r := Err(errors);
    }
  }

  /** The errors of the definitions from `i` on: those of definition `i`'s fields, then the rest. */
  lemma DefinitionErrorsStep(v: TreeView, defs: seq<Definition>, i: nat, program: Program, reachable: set<string>, currentFile: Option<string>)
    requires i < |defs|
    ensures ReferenceErrors(v, SchemaFieldTypes(defs[i..]), program, reachable, currentFile) ==
      ReferenceErrors(v, OwnFieldTypes(defs[i]), program, reachable, currentFile)
      + ReferenceErrors(v, SchemaFieldTypes(defs[i + 1..]), program, reachable, currentFile)
  {
    assert defs[i..][1..] == defs[i + 1..];
    ReferenceErrorsAppend(v, OwnFieldTypes(defs[i]), SchemaFieldTypes(defs[i + 1..]), program, reachable, currentFile);
  }

  /** Validation succeeds exactly when every schema field's reference is valid. */
  lemma ValidReferencesIff(v: TreeView, program: Program, currentFile: Option<string>)
    ensures ReferenceErrors(v, SchemaFieldTypes(program.definitions), program, ReachableSet(v, currentFile), currentFile) == [] <==>
      forall d, f :: d in program.definitions && d.Schema? && f in d.schema.fields ==>
        ValidateTypeReference(v, f.fieldType, program, ReachableSet(v, currentFile), currentFile).Ok?
  {
    var types := SchemaFieldTypes(program.definitions);
    var reachable := ReachableSet(v, currentFile);
    SchemaFieldTypesMembers(program.definitions);
    forall d, f | d in program.definitions && d.Schema? && f in d.schema.fields
      ensures f.fieldType in types
    {
    }
    if forall d, f :: d in program.definitions && d.Schema? && f in d.schema.fields ==>
        ValidateTypeReference(v, f.fieldType, program, reachable, currentFile).Ok? {
      forall i | 0 <= i < |types|
        ensures ValidateTypeReference(v, types[i], program, reachable, currentFile).Ok?
      {
        assert types[i] in types;
      }
    }
  }

  /** A type is among the schema field types exactly when some schema has a field of that type. */
  lemma {:induction false} SchemaFieldTypesMembers(definitions: seq<Definition>)
    ensures forall t :: t in SchemaFieldTypes(definitions) <==>
      exists d, f :: d in definitions && d.Schema? && f in d.schema.fields && f.fieldType == t
  {
    if |definitions| > 0 {
      SchemaFieldTypesMembers(definitions[1..]);
      assert forall d :: d in definitions <==> d == definitions[0] || d in definitions[1..];
      if definitions[0].Schema? {
        FieldTypesOfMembers(definitions[0].schema.fields);
      }
    }
  }
}
