/**
 * Directed graphs over names, as the type tree and the emitter use them: a map from a
 * name to the set of names it points at. Paths, cycles, acyclicity and the post-order
 * that a depth-first search produces.
 */
module Graphs {
  import opened Seqs

  type Graph = map<string, set<string>>

  /** The successors of `u`; a name with no entry has none. */
  function Succ(g: Graph, u: string): set<string>
  {
    if u in g then g[u] else {}
  }

  /** Every name the graph mentions: its keys and every successor. */
  function Nodes(g: Graph): (r: set<string>)
    ensures forall u :: u in g ==> u in r
    ensures forall u, v :: u in g && v in g[u] ==> v in r
  {
    g.Keys + (set u, v | u in g && v in g[u] :: v)
  }

  /** Each consecutive pair of `p` is an edge. */
  predicate IsChain(g: Graph, p: seq<string>)
  {
    forall i :: 0 <= i < |p| - 1 ==> p[i + 1] in Succ(g, p[i])
  }

  /** A closed walk: at least one edge, and it ends where it starts. */
  predicate IsCycle(g: Graph, c: seq<string>)
  {
    |c| >= 2 && c[0] == c[|c| - 1] && IsChain(g, c)
  }

  /** A cycle that visits no name twice before closing. */
  predicate IsSimpleCycle(g: Graph, c: seq<string>)
  {
    IsCycle(g, c) && Distinct(c[..|c| - 1])
  }

  ghost predicate Acyclic(g: Graph)
  {
    forall c :: !IsCycle(g, c)
  }

  /** There is a walk from `a` to `b` (of length zero when `a == b`). */
  ghost predicate Reaches(g: Graph, a: string, b: string)
  {
    exists p :: |p| >= 1 && p[0] == a && p[|p| - 1] == b && IsChain(g, p)
  }

  /** Every successor of an entry appears earlier in `order`. */
  predicate PostOrdered(g: Graph, order: seq<string>)
  {
    forall i :: 0 <= i < |order| ==> forall v :: v in Succ(g, order[i]) ==> v in order[..i]
  }

  /** A post-order that lists every key witnesses that the graph has no cycle. */
  lemma PostOrderedAcyclic(g: Graph, order: seq<string>)
    requires PostOrdered(g, order)
    requires forall u :: u in g ==> u in order
    ensures Acyclic(g)
  {
    forall c | IsCycle(g, c)
      ensures false
    {
      CycleDescends(g, order, c, |c| - 1);
    }
  }

  /** Along a chain, first positions in a post-order strictly decrease. */
  lemma {:induction false} CycleDescends(g: Graph, order: seq<string>, c: seq<string>, k: nat)
    requires PostOrdered(g, order)
    requires forall u :: u in g ==> u in order
    requires IsChain(g, c) && 1 <= k < |c|
    ensures c[0] in order && c[k] in order
    ensures Position(order, c[k]) < Position(order, c[0])
  {
    EdgeDescends(g, order, c[k - 1], c[k]);
    if k > 1 {
      CycleDescends(g, order, c, k - 1);
    }
  }

  lemma EdgeDescends(g: Graph, order: seq<string>, u: string, v: string)
    requires PostOrdered(g, order)
    requires forall u :: u in g ==> u in order
    requires v in Succ(g, u)
    ensures u in order && v in order
    ensures Position(order, v) < Position(order, u)
  {
    var i := Position(order, u);
    assert v in order[..i];
    var j :| 0 <= j < i && order[j] == v;
  }

  /** A walk from `a` to `b` followed by an edge from `b` to `c` is a walk from `a` to `c`. */
  lemma ReachesStep(g: Graph, a: string, b: string, c: string)
    requires Reaches(g, a, b) && c in Succ(g, b)
    ensures Reaches(g, a, c)
  {
    var p :| |p| >= 1 && p[0] == a && p[|p| - 1] == b && IsChain(g, p);
    var q := p + [c];
    assert q[0] == a && q[|q| - 1] == c;
    assert IsChain(g, q);
  }

  /** An edge from `a` to `b` followed by a walk from `b` to `c` is a walk from `a` to `c`. */
  lemma ReachesPrepend(g: Graph, a: string, b: string, c: string)
    requires b in Succ(g, a) && Reaches(g, b, c)
    ensures Reaches(g, a, c)
  {
    var p :| |p| >= 1 && p[0] == b && p[|p| - 1] == c && IsChain(g, p);
    var q := [a] + p;
    assert q[0] == a && q[|q| - 1] == c;
    assert IsChain(g, q);
  }

  lemma ReachesRefl(g: Graph, a: string)
    ensures Reaches(g, a, a)
  {
    assert IsChain(g, [a]);
  }

  /**
   * The state a three-colour depth-first search keeps between steps: `path` is the
   * current chain of open (grey) names and `recStack` holds exactly them, `order` lists
   * the finished (black) names in post-order, and `visited` is the union of both.
   */
  ghost predicate DfsInv(g: Graph, visited: set<string>, recStack: set<string>, path: seq<string>, order: seq<string>)
  {
    Distinct(path) && Distinct(order) && IsChain(g, path)
    && (forall x :: x in recStack <==> x in path)
    && (forall x :: x in visited <==> x in path || x in order)
    && (forall x :: x in path ==> x !in order)
    && PostOrdered(g, order)
  }

  /**
   * A back edge from the end of the open chain to a name on it closes a simple cycle:
   * the chain from that name's position, followed by the name again.
   */
  lemma BackEdgeCycle(g: Graph, path: seq<string>, t: string)
    requires IsChain(g, path) && Distinct(path)
    requires t in path && |path| > 0 && t in Succ(g, path[|path| - 1])
    ensures IsSimpleCycle(g, path[Position(path, t)..] + [t])
  {
    var k := Position(path, t);
    var c := path[Position(path, t)..] + [t];
    assert c[..|c| - 1] == path[k..];
    forall i | 0 <= i < |c| - 1
      ensures c[i + 1] in Succ(g, c[i])
    {
      if i < |c| - 2 {
        assert c[i] == path[k + i] && c[i + 1] == path[k + i + 1];
      }
    }
  }

  lemma SubsetCard<T>(a: set<T>, b: set<T>)
    requires a <= b
    ensures |a| <= |b|
  {
    assert b == a + (b - a);
    assert a * (b - a) == {};
  }

  /** Marking a new name of `nodes` as visited shrinks the set of names left to visit. */
  lemma VisitShrinks(nodes: set<string>, before: set<string>, after: set<string>, x: string)
    requires x in nodes && x !in before && before + {x} <= after
    ensures |nodes - after| < |nodes - before|
  {
    SubsetCard(nodes - after, (nodes - before) - {x});
    assert (nodes - before) - {x} + {x} == nodes - before;
  }

  /** Opening `file` (grey) at the end of the chain keeps the search state consistent. */
  lemma DfsOpen(g: Graph, visited: set<string>, recStack: set<string>, path: seq<string>, order: seq<string>, file: string)
    requires DfsInv(g, visited, recStack, path, order)
    requires file !in visited
    requires |path| > 0 ==> file in Succ(g, path[|path| - 1])
    ensures DfsInv(g, visited + {file}, recStack + {file}, path + [file], order)
  {
    var p := path + [file];
    forall i | 0 <= i < |p| - 1
      ensures p[i + 1] in Succ(g, p[i])
    {
      if i < |path| - 1 {
        assert p[i] == path[i] && p[i + 1] == path[i + 1];
      }
    }
  }

  /** Closing `file` (black) once all its successors are finished appends it to the post-order. */
  lemma DfsClose(g: Graph, visited: set<string>, recStack: set<string>, path: seq<string>, order: seq<string>, file: string)
    requires DfsInv(g, visited, recStack + {file}, path + [file], order)
    requires forall x :: x in recStack <==> x in path
    requires forall t :: t in Succ(g, file) ==> t in order
    ensures DfsInv(g, visited, recStack, path, order + [file])
    ensures (order + [file])[..|order|] == order
  {
    var p := path + [file];
    forall i | 0 <= i < |path|
      ensures path[i] != file
    {
      assert p[i] == path[i] && p[|path|] == file;
    }
    assert forall i :: 0 <= i < |path| ==> path[i] == p[i];
    var o := order + [file];
    forall i | 0 <= i < |o|
      ensures forall v :: v in Succ(g, o[i]) ==> v in o[..i]
    {
      if i < |order| {
        assert o[..i] == order[..i];
      } else {
        assert o[..i] == order;
      }
    }
  }

  /**
   * A visit of `file` that found no cycle: the chain and the grey set are as they were,
   * `file` and everything visited before are visited, and the post-order grew by at least
   * `file` while keeping what it held.
   */
  ghost predicate DfsDone(g: Graph, visited: set<string>, recStack: set<string>, path: seq<string>, order: seq<string>,
                          file: string,
                          visited': set<string>, recStack': set<string>, path': seq<string>, order': seq<string>)
  {
    DfsInv(g, visited', recStack', path', order')
    && path' == path && recStack' == recStack && visited + {file} <= visited'
    && |order| < |order'| && order'[..|order|] == order && file in order'
  }

  /**
   * Finishing `file` once all its successors are finished: it is closed and appended
   * to the post-order, which keeps the order it had when `file` was opened.
   */
  lemma DfsFinish(g: Graph, openedAt: set<string>, visited: set<string>, recStack: set<string>, path: seq<string>,
                  order: seq<string>, mid: seq<string>, file: string)
    requires DfsInv(g, visited, recStack + {file}, path + [file], mid)
    requires forall x :: x in recStack <==> x in path
    requires forall t :: t in Succ(g, file) ==> t in mid
    requires |order| <= |mid| && mid[..|order|] == order
    requires openedAt + {file} <= visited
    ensures DfsDone(g, openedAt, recStack, path, order, file, visited, recStack, path, mid + [file])
  {
    DfsClose(g, visited, recStack, path, mid, file);
    PrefixGrows(order, mid, mid + [file]);
  }

  /** Prefixes compose, and everything in the shorter sequence stays in the longer. */
  lemma PrefixGrows(a: seq<string>, b: seq<string>, c: seq<string>)
    requires |a| <= |b| && b[..|a|] == a
    requires |b| <= |c| && c[..|b|] == b
    ensures |a| <= |c| && c[..|a|] == a
    ensures forall x :: x in b ==> x in c
  {
    assert c[..|a|] == c[..|b|][..|a|];
    forall x | x in b
      ensures x in c
    {
      var i :| 0 <= i < |b| && b[i] == x;
      assert c[i] == x;
    }
  }

  /** Every predecessor of a member of `s` is a member. */
  ghost predicate ClosedUnderPredecessors(g: Graph, s: set<string>)
  {
    forall y, z :: z in s && z in Succ(g, y) ==> y in s
  }

  /**
   * A set that holds `x` and every predecessor of each of its members holds every name
   * from which `x` can be reached.
   */
  lemma {:induction false} BackwardClosed(g: Graph, s: set<string>, x: string, p: seq<string>)
    requires x in s
    requires ClosedUnderPredecessors(g, s)
    requires |p| >= 1 && p[|p| - 1] == x && IsChain(g, p)
    ensures p[0] in s
    decreases |p|
  {
    if |p| > 1 {
      BackwardClosed(g, s, x, p[1..]);
      assert p[1] in Succ(g, p[0]);
    }
  }
}
