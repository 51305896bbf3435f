/**
 * Import handling of the type tree (`type_tree::imports`): resolving an import path
 * against the importing file, finding the file of a package, mapping a resolved path
 * back to the import statement that produced it, the depth-first search for import
 * cycles and the validation of all imports.
 */
module Imports {
  import opened Wrappers
  import opened Seqs
  import opened Strings
  import opened Graphs
  import opened LegacyAst
  import opened TypeTreeModels

  /**
   * Where the body of a Unix path starts (`Components::len_before_body`): after a leading
   * `/` (the root), or after a leading `.` that is the whole path or followed by `/`
   * (the current directory); at 0 otherwise.
   */
  function BodyStart(path: string): (b: nat)
    ensures b <= |path| && b <= 1
    ensures b == 1 <==> |path| > 0 && (path[0] == '/' || (path[0] == '.' && (|path| == 1 || path[1] == '/')))
  {
    if |path| > 0 && path[0] == '/' then 1
    else if |path| > 0 && path[0] == '.' && (|path| == 1 || path[1] == '/') then 1
    else 0
  }

  /** `path` ends in a `.` component of its body (one that starts at `b` or after a `/`). */
  predicate EndsInDot(path: string, b: nat)
  {
    b < |path| && path[|path| - 1] == '.' && (|path| - 1 == b || path[|path| - 2] == '/')
  }

  /**
   * `Components::trim_right`: drops the body's trailing empty components (a trailing `/`)
   * and `.` components, one character at a time.
   */
  function TrimBack(path: string, b: nat): (r: string)
    requires b <= |path|
    ensures b <= |r| <= |path| && r == path[..|r|]
    ensures |r| > b ==> r[|r| - 1] != '/' && !EndsInDot(r, b)
    decreases |path|
  {
    if |path| == b then path
    else if path[|path| - 1] == '/' || EndsInDot(path, b) then TrimBack(path[..|path| - 1], b)
    else path
  }

  /**
   * `Components::next_back` on a trimmed body: drops the last component and the `/`
   * before it, if there is one.
   */
  function DropLast(path: string, b: nat): (r: string)
    requires b <= |path|
    ensures b <= |r| <= |path| && r == path[..|r|]
    ensures |path| > b ==> |r| < |path|
    ensures |r| == b || path[|r|] == '/'
    decreases |path|
  {
    if |path| == b then path
    else if path[|path| - 1] == '/' then path[..|path| - 1]
    else DropLast(path[..|path| - 1], b)
  }

  /**
   * The shape of a non-empty parent: the root `/`, the current directory `.`, or a path
   * that ends neither in `/` nor in `/.`.
   */
  predicate Trimmed(p: string)
  {
    p == "/" || (|p| > 0 && p[|p| - 1] != '/' && (|p| < 2 || p[|p| - 2..] != "/."))
  }

  /**
   * `Path::new(path).parent()` for a Unix path, as text, with `None` read as `""`
   * (`unwrap_or_default`): trailing empty and `.` components are dropped, then the last
   * component with its separator, then again any empty and `.` components that end up
   * last. Repeated slashes and `.` components inside the parent are kept as written.
   */
  function Parent(path: string): (r: string)
    ensures |r| <= |path| && r == path[..|r|]
    ensures r == "" || |r| < |path|
    ensures r == "" || Trimmed(r)
    ensures '/' !in path ==> r == ""
  {
    var b := BodyStart(path);
    var t := TrimBack(path, b);
    if |t| == b then ""
    else
      var d := DropLast(t, b);
      assert '/' !in path ==> |d| == b;
      var r := TrimBack(d, b);
      assert r == path[..|r|];
      assert |r| >= 2 && r[|r| - 2..] == "/." ==> EndsInDot(r, b);
      r
  }

  /** A trailing slash is not a component: the parent of `a/b/` is `a`. */
  lemma ParentTrailingSlash()
    ensures Parent("a/b/") == "a"
  {
    assert TrimBack("a/b/", 0) == TrimBack("a/b", 0) == "a/b";
    assert DropLast("a/b", 0) == "a";
  }

  /** Repeated slashes before the last component are dropped: the parent of `src//a` is `src`. */
  lemma ParentRepeatedSlash()
    ensures Parent("src//a") == "src"
  {
    assert TrimBack("src//a", 0) == "src//a";
    assert DropLast("src//a", 0) == "src/";
    assert TrimBack("src/", 0) == TrimBack("src", 0) == "src";
  }

  /** A `.` component before the last one is dropped: the parent of `a/./b` is `a`. */
  lemma ParentDotComponent()
    ensures Parent("a/./b") == "a"
  {
    assert TrimBack("a/./b", 0) == "a/./b";
    assert DropLast("a/./b", 0) == "a/.";
    assert TrimBack("a/.", 0) == TrimBack("a/", 0) == TrimBack("a", 0) == "a";
  }

  /** The root is kept as the parent of a top-level absolute path, and has no parent itself. */
  lemma ParentOfRoot()
    ensures Parent("/a") == "/"
    ensures Parent("/") == ""
  {
    assert DropLast("/a", 1) == "/";
  }

  predicate StartsWith(s: string, prefix: string)
  {
    |prefix| <= |s| && s[..|prefix|] == prefix
  }

  /** An import written relative to the importing file's directory. */
  predicate IsRelative(importPath: string)
  {
    StartsWith(importPath, "../") || StartsWith(importPath, "./")
  }

  /**
   * `resolve_import_path`: a leading `/` is dropped; a relative import is prefixed by
   * the importing file's directory and a `/` (or kept as written when that directory is
   * empty); anything else is returned unchanged. The import text is not normalised.
   */
  function ResolveImportPath(importingFile: string, importPath: string): (r: string)
    ensures StartsWith(importPath, "/") ==> r == importPath[1..]
    ensures !StartsWith(importPath, "/") && IsRelative(importPath) && Parent(importingFile) == "" ==> r == importPath
    ensures !StartsWith(importPath, "/") && IsRelative(importPath) && Parent(importingFile) != "" ==>
              r == Parent(importingFile) + "/" + importPath
    ensures !StartsWith(importPath, "/") && !IsRelative(importPath) ==> r == importPath
  {
    if StartsWith(importPath, "/") then importPath[1..]
    else if IsRelative(importPath) then
      var parentDir := Parent(importingFile);
      if parentDir == "" then importPath else parentDir + "/" + importPath
    else importPath
  }

  /** Dropping the last component of `dir/name` leaves `dir`. */
  lemma {:induction false} DropLastChild(dir: string, name: string, b: nat)
    requires b <= |dir| && '/' !in name
    ensures DropLast(dir + "/" + name, b) == dir
    decreases |name|
  {
    var p := dir + "/" + name;
    if |name| == 0 {
      assert p[..|p| - 1] == dir;
    } else {
      assert p[..|p| - 1] == dir + "/" + name[..|name| - 1];
      DropLastChild(dir, name[..|name| - 1], b);
    }
  }

  /**
   * The parent of `dir/name` is `dir`, for a `Trimmed` directory and a last component
   * that is neither empty nor `.`: the inverse of appending a component.
   */
  lemma ParentOfChild(dir: string, name: string)
    requires Trimmed(dir) && '/' !in name && name != "" && name != "."
    ensures Parent(dir + "/" + name) == dir
  {
    var p := dir + "/" + name;
    var b := BodyStart(dir);
    assert BodyStart(p) == b;
    assert p[|p| - 1] == name[|name| - 1];
    assert |name| >= 2 ==> p[|p| - 2] == name[|name| - 2];
    assert TrimBack(p, b) == p;
    DropLastChild(dir, name, b);
    if |dir| > b {
      assert !EndsInDot(dir, b) by {
        if |dir| >= 2 && dir[|dir| - 2] == '/' {
          assert dir[|dir| - 2..] == [dir[|dir| - 2], dir[|dir| - 1]];
        }
      }
    }
  }

  /**
   * Only an absolute import loses text: any other import is a suffix of its resolution,
   * so a relative import `./x.glass` from `dir/file.glass` resolves to `dir/./x.glass`.
   */
  lemma ResolutionEndsWithImport(importingFile: string, importPath: string)
    requires !StartsWith(importPath, "/")
    ensures var r := ResolveImportPath(importingFile, importPath);
            |importPath| <= |r| && r[|r| - |importPath|..] == importPath
  {
    var r := ResolveImportPath(importingFile, importPath);
    if IsRelative(importPath) && Parent(importingFile) != "" {
      assert r == (Parent(importingFile) + "/") + importPath;
    }
  }

  /**
   * `find_file_for_package`: the map is searched in its iteration order, which is not
   * specified, so the result is some registered file declaring the package, or None
   * when no file declares it.
   */
  method FindFileForPackage(v: TreeView, packageName: string) returns (r: Option<string>)
    ensures r.Some? ==> r.value in v.fileToPackage && v.fileToPackage[r.value] == packageName
    ensures r.None? <==> forall f :: f in v.fileToPackage ==> v.fileToPackage[f] != packageName
  {
    if f :| f in v.fileToPackage && v.fileToPackage[f] == packageName {
      return Some(f);
    }
    return None;
  }

  /** The first import statement of `imports` that resolves, from `filePath`, to `resolvedPath`. */
  function FirstImportResolvingTo(filePath: string, imports: seq<ImportStmt>, resolvedPath: string): (r: Option<string>)
    ensures r.None? <==> forall j :: 0 <= j < |imports| ==> ResolveImportPath(filePath, imports[j].path) != resolvedPath
    ensures r.Some? ==> exists j :: 0 <= j < |imports| && imports[j].path == r.value
                          && ResolveImportPath(filePath, imports[j].path) == resolvedPath
                          && forall k :: 0 <= k < j ==> ResolveImportPath(filePath, imports[k].path) != resolvedPath
  {
    if |imports| == 0 then None
    else if ResolveImportPath(filePath, imports[0].path) == resolvedPath then Some(imports[0].path)
    else
      var r := FirstImportResolvingTo(filePath, imports[1..], resolvedPath);
      if r.Some? then
        ghost var j :| 0 <= j < |imports| - 1 && imports[1..][j].path == r.value
                       && ResolveImportPath(filePath, imports[1..][j].path) == resolvedPath
                       && forall k :: 0 <= k < j ==> ResolveImportPath(filePath, imports[1..][k].path) != resolvedPath;
        assert imports[j + 1].path == r.value;
        r
      else
        assert forall j :: 1 <= j < |imports| ==> imports[j] == imports[1..][j - 1];
        r
  }

  /** Searching the registered programs from position `i` on. */
  function FindOriginalImportFrom(programs: seq<ProgramInfo>, i: nat, filePath: string, resolvedPath: string): (r: Option<string>)
    requires i <= |programs|
    ensures r.None? <==> forall k :: i <= k < |programs| && programs[k].filePath == Some(filePath) ==>
                           FirstImportResolvingTo(filePath, programs[k].program.imports, resolvedPath).None?
    ensures r.Some? ==> exists k :: i <= k < |programs| && programs[k].filePath == Some(filePath)
                          && FirstImportResolvingTo(filePath, programs[k].program.imports, resolvedPath) == r
                          && forall k' :: i <= k' < k && programs[k'].filePath == Some(filePath) ==>
                               FirstImportResolvingTo(filePath, programs[k'].program.imports, resolvedPath).None?
    decreases |programs| - i
  {
    if i == |programs| then None
    else if programs[i].filePath == Some(filePath)
         && FirstImportResolvingTo(filePath, programs[i].program.imports, resolvedPath).Some? then
      FirstImportResolvingTo(filePath, programs[i].program.imports, resolvedPath)
    else
      var r := FindOriginalImportFrom(programs, i + 1, filePath, resolvedPath);
      if r.Some? then
        ghost var k :| i + 1 <= k < |programs| && programs[k].filePath == Some(filePath)
                       && FirstImportResolvingTo(filePath, programs[k].program.imports, resolvedPath) == r
                       && forall k' :: i + 1 <= k' < k && programs[k'].filePath == Some(filePath) ==>
                            FirstImportResolvingTo(filePath, programs[k'].program.imports, resolvedPath).None?;
        assert i <= k;
        r
      else r
  }

  /**
   * `find_original_import`: among the programs registered under `filePath`, in order,
   * the first import statement that resolves to `resolvedPath`.
   */
  function FindOriginalImport(v: TreeView, filePath: string, resolvedPath: string): (r: Option<string>)
    ensures r.None? <==> forall k :: 0 <= k < |v.programs| && v.programs[k].filePath == Some(filePath) ==>
                           FirstImportResolvingTo(filePath, v.programs[k].program.imports, resolvedPath).None?
    ensures r.Some? ==> exists k :: 0 <= k < |v.programs| && v.programs[k].filePath == Some(filePath)
                          && FirstImportResolvingTo(filePath, v.programs[k].program.imports, resolvedPath) == r
                          && forall k' :: 0 <= k' < k && v.programs[k'].filePath == Some(filePath) ==>
                               FirstImportResolvingTo(filePath, v.programs[k'].program.imports, resolvedPath).None?
  {
    FindOriginalImportFrom(v.programs, 0, filePath, resolvedPath)
  }

  /**
   * A path that one of the file's own import statements resolves to is always traced back
   * to an import statement, so the fallback to the resolved path is not taken for it.
   */
  lemma OriginalImportOfOwnImport(v: TreeView, k: nat, j: nat)
    requires k < |v.programs| && v.programs[k].filePath.Some?
    requires j < |v.programs[k].program.imports|
    ensures var f := v.programs[k].filePath.value;
            var t := ResolveImportPath(f, v.programs[k].program.imports[j].path);
            FindOriginalImport(v, f, t).Some? && ResolveImportPath(f, FindOriginalImport(v, f, t).value) == t
  {
    var f := v.programs[k].filePath.value;
    var imports := v.programs[k].program.imports;
    var t := ResolveImportPath(f, imports[j].path);
    assert FirstImportResolvingTo(f, imports, t).Some?;
    var r := FindOriginalImport(v, f, t);
    var k' :| 0 <= k' < |v.programs| && v.programs[k'].filePath == Some(f)
              && FirstImportResolvingTo(f, v.programs[k'].program.imports, t) == r;
    FirstImportResolves(f, v.programs[k'].program.imports, t);
  }

  /** What `FirstImportResolvingTo` finds resolves to the path searched for. */
  lemma FirstImportResolves(filePath: string, imports: seq<ImportStmt>, resolvedPath: string)
    requires FirstImportResolvingTo(filePath, imports, resolvedPath).Some?
    ensures ResolveImportPath(filePath, FirstImportResolvingTo(filePath, imports, resolvedPath).value) == resolvedPath
  {
    var r := FirstImportResolvingTo(filePath, imports, resolvedPath);
    var j :| 0 <= j < |imports| && imports[j].path == r.value
             && ResolveImportPath(filePath, imports[j].path) == resolvedPath
             && forall k :: 0 <= k < j ==> ResolveImportPath(filePath, imports[k].path) != resolvedPath;
  }

  /** The import edges a cycle search follows: every listed target, or only the registered ones. */
  function ImportEdges(adj: map<string, seq<string>>, skipUnregistered: bool, registered: set<string>): (g: Graph)
    ensures g.Keys == adj.Keys
    ensures forall f :: f in adj ==> forall t :: t in g[f] <==> t in adj[f] && (!skipUnregistered || t in registered)
  {
    map f | f in adj :: set t | t in adj[f] && (!skipUnregistered || t in registered)
  }

  /** The import graph of the tree with edges to unregistered files left out. */
  function RegisteredImportEdges(v: TreeView): Graph
  {
    ImportEdges(v.importGraph, true, v.fileToPackage.Keys)
  }

  /**
   * `detect_import_cycle_dfs`: visits `file`, follows its imports in statement order
   * (skipping unregistered targets when `skipUnregistered`), and stops at the first
   * import that leads back to a file on the current path, returning the path from that
   * file's first occurrence followed by the file again. Without a cycle the path and
   * recursion stack come back as they were, and `file` is finished.
   */
  method ImportCycleDfs(adj: map<string, seq<string>>, skipUnregistered: bool, registered: set<string>,
                        file: string, visited: set<string>, recStack: set<string>, path: seq<string>,
                        ghost order: seq<string>)
    returns (cycle: Option<seq<string>>, visited': set<string>, recStack': set<string>, path': seq<string>,
             ghost order': seq<string>)
    requires DfsInv(ImportEdges(adj, skipUnregistered, registered), visited, recStack, path, order)
    requires file !in visited && file in Nodes(ImportEdges(adj, skipUnregistered, registered))
    requires |path| > 0 ==> file in Succ(ImportEdges(adj, skipUnregistered, registered), path[|path| - 1])
    ensures cycle.Some? ==> IsSimpleCycle(ImportEdges(adj, skipUnregistered, registered), cycle.value)
    ensures cycle.None? ==> DfsDone(ImportEdges(adj, skipUnregistered, registered), visited, recStack, path, order, file,
                                    visited', recStack', path', order')
    decreases |Nodes(ImportEdges(adj, skipUnregistered, registered)) - visited|, 1
  {
    ghost var g := ImportEdges(adj, skipUnregistered, registered);
    DfsOpen(g, visited, recStack, path, order, file);
    visited' := visited + {file};
    recStack' := recStack + {file};
    path' := path + [file];
    order' := order;
    if file in adj {
      VisitShrinks(Nodes(g), visited, visited', file);
      cycle, visited', recStack', path', order' :=
        VisitImports(adj, skipUnregistered, registered, file, visited', recStack', path', order');
      if cycle.Some? {
        return;
      }
    }
    DfsFinish(g, visited, visited', recStack, path, order, order', file);
    order' := order' + [file];
    recStack' := recStack;
    path' := path;
    cycle := None;
  }

  /**
   * The loop of `detect_import_cycle_dfs` over the imports of `file`, the open file at
   * the end of the chain, in statement order: it stops at the first back edge or the
   * first cycle found deeper; otherwise every followed import is finished.
   */
  method VisitImports(adj: map<string, seq<string>>, skipUnregistered: bool, registered: set<string>,
                      file: string, visited: set<string>, recStack: set<string>, path: seq<string>,
                      ghost order: seq<string>)
    returns (cycle: Option<seq<string>>, visited': set<string>, recStack': set<string>, path': seq<string>,
             ghost order': seq<string>)
    requires DfsInv(ImportEdges(adj, skipUnregistered, registered), visited, recStack, path, order)
    requires |path| > 0 && path[|path| - 1] == file && file in adj
    ensures cycle.Some? ==> IsSimpleCycle(ImportEdges(adj, skipUnregistered, registered), cycle.value)
    ensures cycle.None? ==> DfsInv(ImportEdges(adj, skipUnregistered, registered), visited', recStack', path', order')
                            && path' == path && recStack' == recStack && visited <= visited'
                            && |order| <= |order'| && order'[..|order|] == order
                            && Finished(adj[file], |adj[file]|, skipUnregistered, registered, order')
    decreases |Nodes(ImportEdges(adj, skipUnregistered, registered)) - visited|, 2
  {
    ghost var g := ImportEdges(adj, skipUnregistered, registered);
    visited', recStack', path', order' := visited, recStack, path, order;
    var imports := adj[file];
    var j := 0;
    while j < |imports|
      invariant 0 <= j <= |imports|
      invariant DfsInv(g, visited', recStack', path', order')
      invariant path' == path && recStack' == recStack && visited <= visited'
      invariant |order| <= |order'| && order'[..|order|] == order
      invariant Finished(imports, j, skipUnregistered, registered, order')
    {
      var importedFile := imports[j];
      ghost var before := order';
      if skipUnregistered && importedFile !in registered {
        FinishedStep(imports, j, skipUnregistered, registered, before, order');
        j := j + 1;
        continue;
      }
      if importedFile !in visited' {
        SubsetCard(Nodes(g) - visited', Nodes(g) - visited);
        cycle, visited', recStack', path', order' :=
          ImportCycleDfs(adj, skipUnregistered, registered, importedFile, visited', recStack', path', order');
        if cycle.Some? {
          return;
        }
        PrefixGrows(order, before, order');
      } else if importedFile in recStack' {
        BackEdgeCycle(g, path', importedFile);
        var cycleStart := Position(path', importedFile);
        return Some(path'[cycleStart..] + [importedFile]), visited', recStack', path', order';
      }
      FinishedStep(imports, j, skipUnregistered, registered, before, order');
      j := j + 1;
    }
    cycle := None;
  }

  /** Every followed import among the first `j` is finished, i.e. already in `order`. */
  ghost predicate Finished(imports: seq<string>, j: nat, skipUnregistered: bool, registered: set<string>, order: seq<string>)
    requires j <= |imports|
  {
    forall k :: 0 <= k < j && (!skipUnregistered || imports[k] in registered) ==> imports[k] in order
  }

  lemma FinishedStep(imports: seq<string>, j: nat, skipUnregistered: bool, registered: set<string>,
                     before: seq<string>, after: seq<string>)
    requires j < |imports| && Finished(imports, j, skipUnregistered, registered, before)
    requires forall x :: x in before ==> x in after
    requires (!skipUnregistered || imports[j] in registered) ==> imports[j] in after
    ensures Finished(imports, j + 1, skipUnregistered, registered, after)
  {
  }

  /** A cycle that already ends where it starts is kept; otherwise its first file is appended. */
  function CompleteCycle(cycle: seq<string>): (r: seq<string>)
    ensures |cycle| > 0 && cycle[0] == cycle[|cycle| - 1] ==> r == cycle
    ensures |r| > 0 ==> r[0] == r[|r| - 1]
  {
    if |cycle| > 0 && cycle[0] != cycle[|cycle| - 1] then cycle + [cycle[0]] else cycle
  }

  /**
   * The loop of `detect_circular_imports`: a search from every not yet visited file of
   * the graph, taken in the map's unspecified iteration order, stopping at the first
   * cycle. None means the followed edges form no cycle at all.
   */
  method ImportCycleSearch(adj: map<string, seq<string>>, skipUnregistered: bool, registered: set<string>)
    returns (r: Option<seq<string>>)
    ensures r.Some? ==> IsSimpleCycle(ImportEdges(adj, skipUnregistered, registered), r.value)
    ensures r.None? ==> Acyclic(ImportEdges(adj, skipUnregistered, registered))
  {
    ghost var g := ImportEdges(adj, skipUnregistered, registered);
    var visited: set<string> := {};
    var recStack: set<string> := {};
    var path: seq<string> := [];
    ghost var order: seq<string> := [];
    var rest := adj.Keys;
    while rest != {}
      invariant rest <= adj.Keys
      invariant DfsInv(g, visited, recStack, path, order) && path == [] && recStack == {}
      invariant forall f :: f in adj && f !in rest ==> f in visited
      decreases |rest|
    {
      var filePath :| filePath in rest;
      if filePath !in visited {
        var cycle;
        cycle, visited, recStack, path, order := ImportCycleDfs(adj, skipUnregistered, registered, filePath, visited, recStack, path, order);
        if cycle.Some? {
          return Some(CompleteCycle(cycle.value));
        }
      }
      rest := rest - {filePath};
    }
    PostOrderedAcyclic(g, order);
    return None;
  }

  /**
   * `detect_circular_imports`: None for an empty import graph; otherwise a simple cycle
   * of import edges between registered files, or None when there is none.
   */
  method DetectCircularImports(v: TreeView) returns (r: Option<seq<string>>)
    ensures |v.importGraph| == 0 ==> r.None?
    ensures r.Some? ==> IsSimpleCycle(RegisteredImportEdges(v), r.value)
    ensures r.None? ==> Acyclic(RegisteredImportEdges(v))
  {
    if |v.importGraph| == 0 {
      PostOrderedAcyclic(RegisteredImportEdges(v), []);
      return None;
    }
    r := ImportCycleSearch(v.importGraph, true, v.fileToPackage.Keys);
  }

  /** The error reported for an import of `filePath` that resolved to the unregistered `resolvedPath`. */
  function MissingFileError(v: TreeView, filePath: string, resolvedPath: string): ImportValidationError
  {
    var original := FindOriginalImport(v, filePath, resolvedPath);
    FileNotFound(if original.Some? then original.value else resolvedPath, filePath, resolvedPath)
  }

  /** One error per entry of `imported` that is not a registered file, in order. */
  function MissingImports(v: TreeView, filePath: string, imported: seq<string>): (r: seq<ImportValidationError>)
    ensures |r| <= |imported|
    ensures forall e :: e in r <==> exists j :: 0 <= j < |imported| && imported[j] !in v.fileToPackage
                                              && e == MissingFileError(v, filePath, imported[j])
  {
    if |imported| == 0 then []
    else
      var init := imported[..|imported| - 1];
      var last := imported[|imported| - 1];
      var rest := MissingImports(v, filePath, init);
      assert forall j :: 0 <= j < |init| ==> init[j] == imported[j];
      rest + (if last !in v.fileToPackage then [MissingFileError(v, filePath, last)] else [])
  }

  /** The missing-import errors of `files`, file after file. */
  function AllMissingImports(v: TreeView, files: seq<string>): (r: seq<ImportValidationError>)
    requires forall f :: f in files ==> f in v.importGraph
    ensures forall e :: e in r <==> exists i :: 0 <= i < |files| && e in MissingImports(v, files[i], v.importGraph[files[i]])
  {
    if |files| == 0 then []
    else
      var init := files[..|files| - 1];
      assert forall i :: 0 <= i < |init| ==> init[i] == files[i];
      AllMissingImports(v, init) + MissingImports(v, files[|files| - 1], v.importGraph[files[|files| - 1]])
  }

  /** The inner loop of `validate_imports`: the errors for one file's imports, in statement order. */
  method MissingImportsOf(v: TreeView, filePath: string) returns (errors: seq<ImportValidationError>)
    requires filePath in v.importGraph
    ensures errors == MissingImports(v, filePath, v.importGraph[filePath])
  {
    errors := [];
    var importedFiles := v.importGraph[filePath];
    var j := 0;
    while j < |importedFiles|
      invariant 0 <= j <= |importedFiles|
      invariant errors == MissingImports(v, filePath, importedFiles[..j])
    {
      var importedFile := importedFiles[j];
      MissingImportsSnoc(v, filePath, importedFiles, j);
      if importedFile !in v.fileToPackage {
        var originalImport := FindOriginalImport(v, filePath, importedFile);
        errors := errors + [FileNotFound(if originalImport.Some? then originalImport.value else importedFile, filePath, importedFile)];
      }
      j := j + 1;
    }
    assert importedFiles[..j] == importedFiles;
  }

  lemma MissingImportsSnoc(v: TreeView, filePath: string, imported: seq<string>, j: nat)
    requires j < |imported|
    ensures MissingImports(v, filePath, imported[..j + 1]) ==
      MissingImports(v, filePath, imported[..j])
      + (if imported[j] !in v.fileToPackage then [MissingFileError(v, filePath, imported[j])] else [])
  {
    assert imported[..j + 1][..j] == imported[..j];
  }

  /**
   * The second half of `validate_imports`: each import edge to an unregistered file
   * yields one `FileNotFound`, file by file in the map's iteration order; no error means Ok.
   */
  method MissingImportErrors(v: TreeView) returns (r: Result<(), seq<ImportValidationError>>)
    ensures exists files :: Distinct(files) && (forall f :: f in files <==> f in v.importGraph)
                            && r == (if AllMissingImports(v, files) == [] then Ok(()) else Err(AllMissingImports(v, files)))
  {
    var errors: seq<ImportValidationError> := [];
    ghost var done: seq<string> := [];
    var rest := v.importGraph.Keys;
    while rest != {}
      invariant rest <= v.importGraph.Keys
      invariant Distinct(done)
      invariant forall f :: f in done <==> f in v.importGraph && f !in rest
      invariant errors == AllMissingImports(v, done)
      decreases |rest|
    {
      var filePath :| filePath in rest;
      var fileErrors := MissingImportsOf(v, filePath);
      errors := errors + fileErrors;
      assert (done + [filePath])[..|done|] == done;
      done := done + [filePath];
      rest := rest - {filePath};
    }
    if errors == [] {
      return Ok(());
    }
    return Err(errors);
  }

  /**
   * `validate_imports`: a cycle among registered files is reported alone, as the single
   * `CircularImport`; otherwise the missing-file errors, or Ok when there are none.
   */
  method ValidateImports(v: TreeView) returns (r: Result<(), seq<ImportValidationError>>)
    ensures !Acyclic(RegisteredImportEdges(v)) ==>
              r.Err? && |r.error| == 1 && r.error[0].CircularImport?
              && IsSimpleCycle(RegisteredImportEdges(v), r.error[0].cycle)
    ensures Acyclic(RegisteredImportEdges(v)) ==>
              exists files :: Distinct(files) && (forall f :: f in files <==> f in v.importGraph)
                              && r == (if AllMissingImports(v, files) == [] then Ok(()) else Err(AllMissingImports(v, files)))
  {
    var cycle := DetectCircularImports(v);
    if cycle.Some? {
      assert IsCycle(RegisteredImportEdges(v), cycle.value);
      return Err([ImportValidationError.CircularImport(cycle.value)]);
    }
    r := MissingImportErrors(v);
  }

  /** With no cycle, validation succeeds exactly when every import edge reaches a registered file. */
  lemma ValidImportsIff(v: TreeView, files: seq<string>)
    requires forall f :: f in files <==> f in v.importGraph
    ensures AllMissingImports(v, files) == [] <==>
              forall f, t :: f in v.importGraph && t in v.importGraph[f] ==> t in v.fileToPackage
  {
    var ig := v.importGraph;
    if exists f, t :: f in ig && t in ig[f] && t !in v.fileToPackage {
      var f, t :| f in ig && t in ig[f] && t !in v.fileToPackage;
      MissingEdgeReported(v, files, f, t);
    }
    if AllMissingImports(v, files) != [] {
      ReportedErrorHasEdge(v, files, AllMissingImports(v, files)[0]);
    }
  }

  /** An import edge to an unregistered file yields an error. */
  lemma MissingEdgeReported(v: TreeView, files: seq<string>, f: string, t: string)
    requires forall f :: f in files <==> f in v.importGraph
    requires f in v.importGraph && t in v.importGraph[f] && t !in v.fileToPackage
    ensures MissingFileError(v, f, t) in AllMissingImports(v, files)
  {
    var i :| 0 <= i < |files| && files[i] == f;
    var j :| 0 <= j < |v.importGraph[f]| && v.importGraph[f][j] == t;
    assert MissingFileError(v, f, t) in MissingImports(v, files[i], v.importGraph[files[i]]);
  }

  /** Every error comes from an import edge to an unregistered file. */
  lemma ReportedErrorHasEdge(v: TreeView, files: seq<string>, e: ImportValidationError)
    requires forall f :: f in files <==> f in v.importGraph
    requires e in AllMissingImports(v, files)
    ensures exists f, t :: f in v.importGraph && t in v.importGraph[f] && t !in v.fileToPackage
  {
    var i :| 0 <= i < |files| && e in MissingImports(v, files[i], v.importGraph[files[i]]);
    var ts := v.importGraph[files[i]];
    var j :| 0 <= j < |ts| && ts[j] !in v.fileToPackage && e == MissingFileError(v, files[i], ts[j]);
    assert ts[j] in ts;
  }

}
