/** Dependency resolution and package import.

    The registry's records form a graph: the children of a uid are the
    `dependencies` of the record it resolves to, and a uid that does not
    resolve has none. `SearchDependencies` runs a depth-first search from
    each root, sharing one visited set, and lists uids in post-order. The
    visited set and the result list are local to one search, so the model
    passes them as values into and out of `Dfs`. */
module UnityPackageManager {
  import opened Wrappers
  import opened JsonSchema
  import Seqs
  import Strings
  import AssetDataController

  /** The uids `Dfs` recurses into from `uid`. */
  function Children(assets: seq<AssetRecord>, uid: string): seq<string> {
    match AssetDataController.GetAssetData(assets, uid)
    case None => []
    case Some(r) => r.dependencies
  }

  /** The registry's dependency graph, as the function from a uid to its children. */
  function Graph(assets: seq<AssetRecord>): string -> seq<string> {
    (uid: string) => Children(assets, uid)
  }

  /** Every uid some record lists as a dependency. */
  function AllDeps(assets: seq<AssetRecord>): set<string> {
    set i, d | 0 <= i < |assets| && d in assets[i].dependencies :: d
  }

  /** The registry's graph is bounded by the dependency lists it stores. */
  lemma GraphBounded(assets: seq<AssetRecord>)
    ensures forall u, c :: c in Graph(assets)(u) ==> c in AllDeps(assets)
  {
    forall u, c | c in Graph(assets)(u) ensures c in AllDeps(assets) {
      ChildrenInAllDeps(assets, u);
    }
  }

  lemma ChildrenInAllDeps(assets: seq<AssetRecord>, uid: string)
    ensures forall c :: c in Children(assets, uid) ==> c in AllDeps(assets)
  {
    var r := AssetDataController.GetAssetData(assets, uid);
    if r.Some? {
      var i :| 0 <= i < |assets| && assets[i] == r.value;
      forall c | c in Children(assets, uid) ensures c in AllDeps(assets) {
        assert c in assets[i].dependencies;
      }
    }
  }

  // ------------------------------------------------------------ paths

  /** `p` walks the graph: each uid is a child of the one before it. */
  predicate IsPath(g: string -> seq<string>, p: seq<string>) {
    |p| >= 1 && forall i :: 0 <= i < |p| - 1 ==> p[i + 1] in g(p[i])
  }

  /** `b` can be reached from `a` in zero or more steps. */
  ghost predicate Reaches(g: string -> seq<string>, a: string, b: string) {
    exists p :: IsPath(g, p) && p[0] == a && p[|p| - 1] == b
  }

  /** `b` can be reached from `a` in one or more steps. */
  ghost predicate ReachesPlus(g: string -> seq<string>, a: string, b: string) {
    exists p :: IsPath(g, p) && |p| >= 2 && p[0] == a && p[|p| - 1] == b
  }

  /** No walk of one or more steps comes back to where it started. */
  ghost predicate Acyclic(g: string -> seq<string>) {
    forall p :: IsPath(g, p) && |p| >= 2 ==> p[0] != p[|p| - 1]
  }

  /** `y` is reachable from one of the roots. */
  ghost predicate ReachableFrom(g: string -> seq<string>, roots: seq<string>, y: string) {
    exists k :: 0 <= k < |roots| && Reaches(g, roots[k], y)
  }

  /** Every child of the uid at position `i` occurs earlier in `r`. */
  predicate ChildrenBefore(g: string -> seq<string>, r: seq<string>, i: int)
    requires 0 <= i < |r|
  {
    forall c :: c in g(r[i]) ==> c in r[..i]
  }

  /** Post-order: every listed uid comes after all of its children. */
  predicate PostOrdered(g: string -> seq<string>, r: seq<string>) {
    forall i :: 0 <= i < |r| ==> ChildrenBefore(g, r, i)
  }

  /** The visited set holds exactly the listed uids and those on the stack. */
  ghost predicate Tracks(visited: set<string>, result: seq<string>, stack: set<string>) {
    forall y :: y in visited <==> y in result || y in stack
  }

  /** Every child of a member of `s` is in `s`. */
  ghost predicate Closed(g: string -> seq<string>, s: set<string>) {
    forall n, c :: n in s && c in g(n) ==> c in s
  }

  lemma ReachesSelf(g: string -> seq<string>, a: string)
    ensures Reaches(g, a, a)
  {
    assert IsPath(g, [a]);
  }

  /** An edge is a one-step walk. */
  lemma EdgeReaches(g: string -> seq<string>, x: string, c: string)
    requires c in g(x)
    ensures ReachesPlus(g, x, c) && Reaches(g, x, c)
  {
    assert IsPath(g, [x, c]);
  }

  /** A walk extended by an edge at its end. */
  lemma ReachesPlusThenEdge(g: string -> seq<string>, s: string, x: string, c: string)
    requires ReachesPlus(g, s, x)
    requires c in g(x)
    ensures ReachesPlus(g, s, c)
  {
    var p :| IsPath(g, p) && |p| >= 2 && p[0] == s && p[|p| - 1] == x;
    var q := p + [c];
    assert forall i :: 0 <= i < |p| ==> q[i] == p[i];
    assert IsPath(g, q);
  }

  /** A walk of zero or more steps extended by an edge at its end. */
  lemma ReachesThenEdge(g: string -> seq<string>, s: string, x: string, c: string)
    requires Reaches(g, s, x)
    requires c in g(x)
    ensures ReachesPlus(g, s, c)
  {
    var p :| IsPath(g, p) && p[0] == s && p[|p| - 1] == x;
    var q := p + [c];
    assert forall i :: 0 <= i < |p| ==> q[i] == p[i];
    assert IsPath(g, q);
  }

  lemma ReachesPlusReaches(g: string -> seq<string>, a: string, b: string)
    requires ReachesPlus(g, a, b)
    ensures Reaches(g, a, b)
  {
  }

  /** Whatever reaches a uid reaches each of its children in one or more steps. */
  lemma StackReachesChild(g: string -> seq<string>, inner: set<string>, x: string, c: string)
    requires forall s :: s in inner ==> Reaches(g, s, x)
    requires c in g(x)
    ensures forall s :: s in inner ==> ReachesPlus(g, s, c)
  {
    forall s | s in inner ensures ReachesPlus(g, s, c) {
      ReachesThenEdge(g, s, x, c);
    }
  }

  /** What a child reaches, its parent reaches. */
  lemma ReachesThroughChild(g: string -> seq<string>, x: string, c: string, S: set<string>)
    requires c in g(x)
    requires forall n :: n in S ==> Reaches(g, c, n)
    ensures forall n :: n in S ==> Reaches(g, x, n)
  {
    forall n | n in S ensures Reaches(g, x, n) {
      EdgeThenReaches(g, x, c, n);
    }
  }

  /** A walk extended by an edge at its start. */
  lemma EdgeThenReaches(g: string -> seq<string>, x: string, c: string, n: string)
    requires c in g(x)
    requires Reaches(g, c, n)
    ensures Reaches(g, x, n)
  {
    var p :| IsPath(g, p) && p[0] == c && p[|p| - 1] == n;
    var q := [x] + p;
    assert forall i :: 1 <= i < |q| ==> q[i] == p[i - 1];
    assert IsPath(g, q);
  }

  /** A closed set holds everything reachable from its members. */
  lemma ClosedContainsReach(g: string -> seq<string>, s: set<string>, a: string, b: string)
    requires Closed(g, s)
    requires a in s
    requires Reaches(g, a, b)
    ensures b in s
  {
    var p :| IsPath(g, p) && p[0] == a && p[|p| - 1] == b;
    PathStaysInClosed(g, s, p, |p| - 1);
  }

  lemma {:induction false} PathStaysInClosed(g: string -> seq<string>, s: set<string>, p: seq<string>, k: int)
    requires Closed(g, s)
    requires IsPath(g, p) && p[0] in s
    requires 0 <= k < |p|
    ensures p[k] in s
  {
    if k > 0 {
      PathStaysInClosed(g, s, p, k - 1);
    }
  }

  /** In an acyclic graph a child never reaches its parent. */
  lemma AcyclicNoBackEdge(g: string -> seq<string>, x: string, c: string)
    requires Acyclic(g)
    requires c in g(x)
    ensures !ReachesPlus(g, c, x) && c != x
  {
    if ReachesPlus(g, c, x) {
      ReachesPlusThenEdge(g, c, x, c);
      assert false;
    }
    if c == x {
      assert IsPath(g, [x, x]);
      assert false;
    }
  }

  /** A graph whose edges strictly lower a rank has no cycle. */
  lemma RankedAcyclic(g: string -> seq<string>, rank: string -> int)
    requires forall x, c :: c in g(x) ==> rank(c) < rank(x)
    ensures Acyclic(g)
  {
    forall p | IsPath(g, p) && |p| >= 2 ensures p[0] != p[|p| - 1] {
      RankFalls(g, rank, p, |p| - 1);
    }
  }

  lemma {:induction false} RankFalls(g: string -> seq<string>, rank: string -> int, p: seq<string>, k: int)
    requires forall x, c :: c in g(x) ==> rank(c) < rank(x)
    requires IsPath(g, p)
    requires 1 <= k < |p|
    ensures rank(p[k]) < rank(p[0])
  {
    assert p[k] in g(p[k - 1]);
    if k > 1 {
      RankFalls(g, rank, p, k - 1);
    }
  }

  lemma PostOrderedAppend(g: string -> seq<string>, r: seq<string>, x: string)
    requires PostOrdered(g, r)
    requires forall c :: c in g(x) ==> c in r
    ensures PostOrdered(g, r + [x])
  {
    var r' := r + [x];
    forall i | 0 <= i < |r'| ensures ChildrenBefore(g, r', i) {
      if i < |r| {
        assert r'[..i] == r[..i];
        assert ChildrenBefore(g, r, i);
      } else {
        assert r'[..i] == r;
      }
    }
  }

  lemma CardinalityDrops(U: set<string>, visited: set<string>, visited': set<string>, x: string)
    requires visited + {x} <= visited' && x !in visited && x in U
    ensures |U - visited'| < |U - visited|
  {
    assert U - visited' < U - visited by {
      assert x in U - visited && x !in U - visited';
    }
    Seqs.ProperSubsetCardinality(U - visited', U - visited);
  }

  lemma SubsetMeasure(U: set<string>, a: set<string>, b: set<string>)
    requires a <= b
    ensures |U - b| <= |U - a|
  {
    Seqs.SubsetCardinality(U - b, U - a);
  }

  lemma PrefixTrans(a: seq<string>, b: seq<string>, c: seq<string>)
    requires a <= b && b <= c
    ensures a <= c
  {
  }

  /** Appending a uid the list does not hold. */
  lemma AppendFresh(r0: seq<string>, r: seq<string>, x: string)
    requires Seqs.NoDup(r) && x !in r && r0 <= r
    ensures Seqs.NoDup(r + [x])
    ensures r0 <= r + [x]
  {
    var r' := r + [x];
    forall i, j | 0 <= i < j < |r'| ensures r'[i] != r'[j] {
      if j < |r| {
        assert r'[i] == r[i] && r'[j] == r[j];
      } else {
        assert r'[i] == r[i];
      }
    }
  }

  lemma PrefixVisited(children: seq<string>, i: int, before: set<string>, after: set<string>)
    requires 0 <= i < |children|
    requires forall k :: 0 <= k < i ==> children[k] in before
    requires before <= after && children[i] in after
    ensures forall k :: 0 <= k < i + 1 ==> children[k] in after
  {
  }

  // ------------------------------------------------------------ search

  /** `Dfs`: visit `x` unless it is visited already, recurse into its children,
      then append it to the result. The lookup of a uid's children is the
      graph `g` (for a search, `Graph(assets)`). `stack` is the set of uids whose visit is
      still in progress; `U` bounds every uid the search can meet. A new uid
      enters the visited set exactly when it enters the result, each new uid
      is reachable from `x`, every child of a new uid is visited, and in an
      acyclic graph post-order is kept. */
  method Dfs(g: string -> seq<string>, ghost U: set<string>, x: string,
             visited: set<string>, result: seq<string>, ghost stack: set<string>)
      returns (visited': set<string>, result': seq<string>)
    requires Tracks(visited, result, stack)
    requires Seqs.NoDup(result)
    requires forall s :: s in stack ==> ReachesPlus(g, s, x)
    requires x in U && visited <= U
    requires forall u, c :: c in g(u) ==> c in U
    ensures visited <= visited' <= U && x in visited'
    ensures Tracks(visited', result', stack)
    ensures Seqs.NoDup(result')
    ensures result <= result'
    ensures forall y :: y in stack && y in result' ==> y in result
    ensures forall n, c :: n in visited' - visited && c in g(n) ==> c in visited'
    ensures forall n :: n in visited' - visited ==> Reaches(g, x, n)
    ensures Acyclic(g) && PostOrdered(g, result) ==> PostOrdered(g, result')
    decreases 2 * |U - visited|
  {
    if x in visited {
      return visited, result;
    }
    ReachesSelf(g, x);
    ghost var inner := stack + {x};
    forall s | s in inner ensures Reaches(g, s, x) {
      if s != x {
        ReachesPlusReaches(g, s, x);
      }
    }
    CardinalityDrops(U, visited, visited + {x}, x);
    visited', result' := VisitChildren(g, U, x, visited + {x}, result, inner);
    if Acyclic(g) && PostOrdered(g, result) {
      forall c | c in g(x) ensures c in result' {
        AcyclicNoBackEdge(g, x, c);
      }
      PostOrderedAppend(g, result', x);
    }
    AppendFresh(result, result', x);
    result' := result' + [x];
  }

  /** The loop of `Dfs` over the children of `x`, which is on the stack
      `inner` and already visited (`start`). Every child ends up visited. */
  method VisitChildren(g: string -> seq<string>, ghost U: set<string>, x: string,
                       start: set<string>, result: seq<string>, ghost inner: set<string>)
      returns (visited': set<string>, result': seq<string>)
    requires Tracks(start, result, inner)
    requires Seqs.NoDup(result)
    requires x in inner && x !in result
    requires forall s :: s in inner ==> Reaches(g, s, x)
    requires start <= U
    requires forall u, c :: c in g(u) ==> c in U
    ensures start <= visited' <= U
    ensures Tracks(visited', result', inner)
    ensures Seqs.NoDup(result')
    ensures result <= result'
    ensures forall y :: y in inner && y in result' ==> y in result
    ensures forall c :: c in g(x) ==> c in visited'
    ensures forall n, c :: n in visited' - start && c in g(n) ==> c in visited'
    ensures forall n :: n in visited' - start ==> Reaches(g, x, n)
    ensures Acyclic(g) && PostOrdered(g, result) ==> PostOrdered(g, result')
    decreases 2 * |U - start| + 1
  {
    var children := g(x);
    visited' := start;
    result' := result;
    for i := 0 to |children|
      invariant start <= visited' <= U
      invariant Tracks(visited', result', inner)
      invariant Seqs.NoDup(result')
      invariant result <= result'
      invariant forall y :: y in inner && y in result' ==> y in result
      invariant forall k :: 0 <= k < i ==> children[k] in visited'
      invariant forall n, c :: n in visited' - start && c in g(n) ==> c in visited'
      invariant forall n :: n in visited' - start ==> Reaches(g, x, n)
      invariant Acyclic(g) && PostOrdered(g, result) ==> PostOrdered(g, result')
    {
      var c := children[i];
      StackReachesChild(g, inner, x, c);
      SubsetMeasure(U, start, visited');
      ghost var before := visited';
      ghost var resultBefore := result';
      visited', result' := Dfs(g, U, c, visited', result', inner);
      ReachesThroughChild(g, x, c, visited' - before);
      PrefixTrans(result, resultBefore, result');
      PrefixVisited(children, i, before, visited');
    }
  }

  /** `SearchDependencies`: the uids reachable from the given roots, each once,
      in post-order when the graph is acyclic; no roots give the empty list.
      `bound` is a ghost set holding every child, which bounds the search. */
  method SearchDependencies(g: string -> seq<string>, ghost bound: set<string>, dependencies: seq<string>)
      returns (result: seq<string>)
    requires forall u, c :: c in g(u) ==> c in bound
    ensures dependencies == [] ==> result == []
    ensures Seqs.NoDup(result)
    ensures forall y :: y in result <==> ReachableFrom(g, dependencies, y)
    ensures Acyclic(g) ==> PostOrdered(g, result)
  {
    if |dependencies| == 0 {
      return [];
    }
    ghost var U := Seqs.Elems(dependencies) + bound;
    var visited: set<string> := {};
    result := [];
    for i := 0 to |dependencies|
      invariant Tracks(visited, result, {}) && visited <= U
      invariant Seqs.NoDup(result)
      invariant forall k :: 0 <= k < i ==> dependencies[k] in visited
      invariant Closed(g, visited)
      invariant forall n :: n in visited ==> ReachableFrom(g, dependencies, n)
      invariant Acyclic(g) ==> PostOrdered(g, result)
    {
      ghost var before := visited;
      visited, result := Dfs(g, U, dependencies[i], visited, result, {});
      ClosedGrows(g, before, visited);
      RootReachable(g, dependencies, i, before, visited);
      PrefixVisited(dependencies, i, before, visited);
    }
    ClosedHoldsReachable(g, dependencies, visited);
  }

  /** A closed set grows into a closed set when every child of a new member is in it. */
  lemma ClosedGrows(g: string -> seq<string>, before: set<string>, after: set<string>)
    requires Closed(g, before) && before <= after
    requires forall n, c :: n in after - before && c in g(n) ==> c in after
    ensures Closed(g, after)
  {
  }

  /** The uids a search from root `i` adds are reachable from the roots. */
  lemma RootReachable(g: string -> seq<string>, roots: seq<string>, i: int,
                      before: set<string>, after: set<string>)
    requires 0 <= i < |roots|
    requires forall n :: n in before ==> ReachableFrom(g, roots, n)
    requires forall n :: n in after - before ==> Reaches(g, roots[i], n)
    ensures forall n :: n in after ==> ReachableFrom(g, roots, n)
  {
    forall n | n in after ensures ReachableFrom(g, roots, n) {
      if n !in before {
        assert Reaches(g, roots[i], n);
      }
    }
  }

  /** A closed set holding every root holds everything reachable from them. */
  lemma ClosedHoldsReachable(g: string -> seq<string>, roots: seq<string>, s: set<string>)
    requires Closed(g, s)
    requires forall k :: 0 <= k < |roots| ==> roots[k] in s
    ensures forall y :: ReachableFrom(g, roots, y) ==> y in s
  {
    forall y | ReachableFrom(g, roots, y) ensures y in s {
      var k :| 0 <= k < |roots| && Reaches(g, roots[k], y);
      ClosedContainsReach(g, s, roots[k], y);
    }
  }

  // ------------------------------------------------------------ import

  /** The records the uids resolve to, in order; a uid that resolves to
      nothing is skipped, as the `GetAssetData(...) != null` guards do. */
  function Resolved(assets: seq<AssetRecord>, uids: seq<string>): seq<AssetRecord> {
    if uids == [] then []
    else
      var last := AssetDataController.GetAssetData(assets, uids[|uids| - 1]);
      Resolved(assets, uids[..|uids| - 1]) + (if last.Some? then [last.value] else [])
  }

  /** The names shown in the confirmation dialog. */
  function Names(rs: seq<AssetRecord>): (r: seq<string>)
    ensures |r| == |rs| && forall i :: 0 <= i < |rs| ==> r[i] == rs[i].name
  {
    seq(|rs|, i requires 0 <= i < |rs| => rs[i].name)
  }

  /** `Path.Combine(documents, "VAMF", filePath).Replace("\\", "/")`. */
  function ImportPath(documents: string, filePath: string): string {
    Strings.ReplaceAll(Strings.Combine(Strings.Combine(documents, "VAMF"), filePath), "\\", "/")
  }

  /** The package paths handed to the importer. */
  function ImportPaths(documents: string, rs: seq<AssetRecord>): (r: seq<string>)
    ensures |r| == |rs| && forall i :: 0 <= i < |rs| ==> r[i] == ImportPath(documents, rs[i].filePath)
  {
    seq(|rs|, i requires 0 <= i < |rs| => ImportPath(documents, rs[i].filePath))
  }

  /** A record is listed exactly when one of the uids resolves to it. */
  lemma {:induction false} ResolvedMembers(assets: seq<AssetRecord>, uids: seq<string>, r: AssetRecord)
    ensures r in Resolved(assets, uids) <==>
            exists i :: 0 <= i < |uids| && AssetDataController.GetAssetData(assets, uids[i]) == Some(r)
  {
    if uids != [] {
      var init := uids[..|uids| - 1];
      ResolvedMembers(assets, init, r);
      if exists i :: 0 <= i < |init| && AssetDataController.GetAssetData(assets, init[i]) == Some(r) {
        var i :| 0 <= i < |init| && AssetDataController.GetAssetData(assets, init[i]) == Some(r);
        assert uids[i] == init[i];
      }
      if exists i :: 0 <= i < |uids| && AssetDataController.GetAssetData(assets, uids[i]) == Some(r) {
        var i :| 0 <= i < |uids| && AssetDataController.GetAssetData(assets, uids[i]) == Some(r);
        if i < |init| {
          assert init[i] == uids[i];
        }
      }
    }
  }

  /** When every uid resolves, there is one record per uid, carrying that uid. */
  lemma {:induction false} ResolvedAll(assets: seq<AssetRecord>, uids: seq<string>)
    requires forall i :: 0 <= i < |uids| ==> AssetDataController.GetAssetData(assets, uids[i]).Some?
    ensures |Resolved(assets, uids)| == |uids|
    ensures forall i :: 0 <= i < |uids| ==> Resolved(assets, uids)[i].uid == uids[i]
  {
    if uids != [] {
      var init := uids[..|uids| - 1];
      assert forall i :: 0 <= i < |init| ==> init[i] == uids[i];
      ResolvedAll(assets, init);
      var rs := Resolved(assets, init);
      var last := AssetDataController.GetAssetData(assets, uids[|uids| - 1]);
      var all := Resolved(assets, uids);
      assert all == rs + [last.value];
      forall i | 0 <= i < |uids| ensures all[i].uid == uids[i] {
        if i < |init| {
          assert all[i] == rs[i];
        }
      }
    }
  }

  /** A rooted `filePath` (the auto-registered ones start with '/') discards
      the documents folder; any other is placed under `documents/VAMF`. */
  lemma ImportPathRooted(documents: string, filePath: string)
    ensures Strings.IsRooted(filePath) ==>
            ImportPath(documents, filePath) == Strings.ReplaceAll(filePath, "\\", "/")
    ensures !Strings.IsRooted(filePath) && filePath != [] && documents != [] && !Strings.IsSeparator(documents[|documents| - 1]) ==>
            ImportPath(documents, filePath) == Strings.ReplaceAll(documents + "/VAMF/" + filePath, "\\", "/")
  {
    if !Strings.IsRooted(filePath) && filePath != [] && documents != [] && !Strings.IsSeparator(documents[|documents| - 1]) {
      assert Strings.Combine(documents, "VAMF") == documents + "/VAMF";
      assert (documents + "/VAMF") + "/" + filePath == documents + "/VAMF/" + filePath;
    }
  }

  /** `ImportAsset`: the asset's dependencies in search order followed by the
      asset itself; the names of those that resolve; and, when there is at
      least one name and the user confirms (`userChoice`, the dialog's
      answer), the path of each resolved package in the same order.
      `documents` is the user's documents folder. */
  method ImportAsset(assets: seq<AssetRecord>, asset: AssetRecord, documents: string, userChoice: bool)
      returns (order: seq<string>, names: seq<string>, imported: seq<string>)
    ensures |order| >= 1 && order[|order| - 1] == asset.uid
    ensures Seqs.NoDup(order[..|order| - 1])
    ensures forall y :: y in order[..|order| - 1] <==> ReachableFrom(Graph(assets), asset.dependencies, y)
    ensures Acyclic(Graph(assets)) ==> PostOrdered(Graph(assets), order[..|order| - 1])
    ensures names == Names(Resolved(assets, order))
    ensures imported == if |names| > 0 && userChoice then ImportPaths(documents, Resolved(assets, order)) else []
  {
    GraphBounded(assets);
    var deps := SearchDependencies(Graph(assets), AllDeps(assets), asset.dependencies);
    order := deps + [asset.uid];
    assert order[..|order| - 1] == deps;
    names := CollectNames(assets, order);
    imported := [];
    if |names| > 0 && userChoice {
      imported := CollectImportPaths(assets, order, documents);
    }
  }

  /** The first loop of `ImportAsset`: the name of every uid that resolves. */
  method CollectNames(assets: seq<AssetRecord>, order: seq<string>) returns (names: seq<string>)
    ensures names == Names(Resolved(assets, order))
  {
    names := [];
    for i := 0 to |order|
      invariant names == Names(Resolved(assets, order[..i]))
    {
      assert order[..i + 1][..i] == order[..i];
      var r := AssetDataController.GetAssetData(assets, order[i]);
      if r.Some? {
        names := names + [r.value.name];
      }
    }
    assert order[..|order|] == order;
  }

  /** The second loop of `ImportAsset`: the package path of every uid that
      resolves, in order, each handed to the importer. */
  method CollectImportPaths(assets: seq<AssetRecord>, order: seq<string>, documents: string)
      returns (imported: seq<string>)
    ensures imported == ImportPaths(documents, Resolved(assets, order))
  {
    imported := [];
    for i := 0 to |order|
      invariant imported == ImportPaths(documents, Resolved(assets, order[..i]))
    {
      assert order[..i + 1][..i] == order[..i];
      var r := AssetDataController.GetAssetData(assets, order[i]);
      if r.Some? {
        imported := imported + [ImportPath(documents, r.value.filePath)];
      }
    }
    assert order[..|order|] == order;
  }

  /** Package A depends on B, which depends on C: the search from A's
      dependencies lists C before B. */
  method DependencyChainOrder() returns (result: seq<string>)
    ensures result == ["C", "B"]
  {
    var g := ChainGraph;
    RankedAcyclic(g, ChainRank);
    result := SearchDependencies(g, {"B", "C"}, ["B"]);
    ChainReachable(result);
  }

  function ChainGraph(u: string): seq<string> {
    if u == "A" then ["B"] else if u == "B" then ["C"] else []
  }

  function ChainRank(u: string): int {
    if u == "A" then 2 else if u == "B" then 1 else 0
  }

  /** A duplicate-free post-ordered list of exactly B and C is [C, B]. */
  lemma ChainReachable(result: seq<string>)
    requires Seqs.NoDup(result)
    requires forall y :: y in result <==> ReachableFrom(ChainGraph, ["B"], y)
    requires PostOrdered(ChainGraph, result)
    ensures result == ["C", "B"]
  {
    var g := ChainGraph;
    var roots := ["B"];
    ReachesSelf(g, "B");
    assert ReachableFrom(g, roots, "B") by {
      assert Reaches(g, roots[0], "B");
    }
    assert ReachableFrom(g, roots, "C") by {
      assert IsPath(g, ["B", "C"]);
      assert Reaches(g, roots[0], "C");
    }
    assert Closed(g, {"B", "C"});
    forall k | 0 <= k < |result| ensures result[k] == "B" || result[k] == "C" {
      assert ReachableFrom(g, roots, result[k]);
      var j :| 0 <= j < |roots| && Reaches(g, roots[j], result[k]);
      ClosedContainsReach(g, {"B", "C"}, roots[j], result[k]);
    }
    var b :| 0 <= b < |result| && result[b] == "B";
    assert ChildrenBefore(g, result, b);
    assert "C" in g(result[b]);
    var c :| 0 <= c < b && result[..b][c] == "C";
    assert result[c] == "C";
    assert |result| <= 2 by {
      Seqs.NoDupCard(result);
      assert Seqs.Elems(result) <= {"B", "C"};
      Seqs.SubsetCardinality(Seqs.Elems(result), {"B", "C"});
    }
  }
}
