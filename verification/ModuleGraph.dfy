/**
  Cycle detection over declared module dependencies: a depth-first search with a set of modules
  being visited and a set of finished ones.
 */
module ModuleGraph {

  type Id = string

  datatype EdgeCategory = EdgeCategory(name: string, targets: seq<Id>)

  /** A manifest's identity and its declared edges, category by category. */
  datatype ModuleManifest = ModuleManifest(id: Id, edges: seq<EdgeCategory>)

  /** Test and tool edges are not part of the production graph. */
  predicate Counts(category: EdgeCategory) {
    category.name != "test" && category.name != "tool"
  }

  // ---- the relation the search is about

  ghost predicate Declares(m: ModuleManifest, target: Id) {
    exists k :: 0 <= k < |m.edges| && Counts(m.edges[k]) && target in m.edges[k].targets
  }

  /** Some manifest of this identity declares a production edge to the target. */
  ghost predicate Links(modules: seq<ModuleManifest>, from: Id, to: Id) {
    exists k :: 0 <= k < |modules| && modules[k].id == from && Declares(modules[k], to)
  }

  /** The edge a walk takes at its k-th step. */
  ghost predicate TakesEdge(modules: seq<ModuleManifest>, walk: seq<Id>, k: int) {
    0 <= k < |walk| - 1 && Links(modules, walk[k], walk[k + 1])
  }

  ghost predicate IsWalk(modules: seq<ModuleManifest>, walk: seq<Id>) {
    forall k :: 0 <= k < |walk| - 1 ==> TakesEdge(modules, walk, k)
  }

  ghost predicate ReturnsTo(modules: seq<ModuleManifest>, walk: seq<Id>, id: Id) {
    |walk| >= 2 && walk[0] == id && walk[|walk| - 1] == id && IsWalk(modules, walk)
  }

  /** A closed walk of at least one edge runs through this module. */
  ghost predicate OnCycle(modules: seq<ModuleManifest>, id: Id) {
    exists walk :: ReturnsTo(modules, walk, id)
  }

  // ---- the graph the search runs on

  function Targets(graph: map<Id, seq<Id>>, id: Id): seq<Id> {
    if id in graph then graph[id] else []
  }

  predicate HasEdge(graph: map<Id, seq<Id>>, a: Id, b: Id) {
    b in Targets(graph, a)
  }

  /** Appends one category's targets to its module's list of successors. */
  method AddEdges(graph: map<Id, seq<Id>>, id: Id, targets: seq<Id>) returns (larger: map<Id, seq<Id>>)
    ensures forall a, b :: HasEdge(larger, a, b) <==> HasEdge(graph, a, b) || (a == id && b in targets)
  {
    larger := graph;
    for k := 0 to |targets|
      invariant forall a, b :: HasEdge(larger, a, b) <==> HasEdge(graph, a, b) || (a == id && b in targets[..k])
    {
      ghost var smaller := larger;
      larger := larger[id := Targets(larger, id) + [targets[k]]];
      assert targets[..k + 1] == targets[..k] + [targets[k]];
      forall a, b
        ensures HasEdge(larger, a, b) <==> HasEdge(graph, a, b) || (a == id && b in targets[..k + 1])
      {
        assert HasEdge(larger, a, b) <==> HasEdge(smaller, a, b) || (a == id && b == targets[k]);
      }
    }
    assert targets[..|targets|] == targets;
  }

  ghost predicate DeclaresBelow(m: ModuleManifest, n: nat, target: Id)
    requires n <= |m.edges|
  {
    exists k :: 0 <= k < n && Counts(m.edges[k]) && target in m.edges[k].targets
  }

  method AddModule(graph: map<Id, seq<Id>>, m: ModuleManifest) returns (larger: map<Id, seq<Id>>)
    ensures forall a, b :: HasEdge(larger, a, b) <==> HasEdge(graph, a, b) || (a == m.id && Declares(m, b))
  {
    larger := graph;
    for k := 0 to |m.edges|
      invariant forall a, b ::
        HasEdge(larger, a, b) <==> HasEdge(graph, a, b) || (a == m.id && DeclaresBelow(m, k, b))
    {
      ghost var smaller := larger;
      if Counts(m.edges[k]) {
        larger := AddEdges(larger, m.id, m.edges[k].targets);
      }
      forall a, b
        ensures HasEdge(larger, a, b) <==> HasEdge(graph, a, b) || (a == m.id && DeclaresBelow(m, k + 1, b))
      {
        assert DeclaresBelow(m, k + 1, b)
               <==> DeclaresBelow(m, k, b) || (Counts(m.edges[k]) && b in m.edges[k].targets);
        assert HasEdge(smaller, a, b) <==> HasEdge(graph, a, b) || (a == m.id && DeclaresBelow(m, k, b));
      }
    }
    assert forall b :: DeclaresBelow(m, |m.edges|, b) <==> Declares(m, b);
  }

  /** Manifests that share an identity share one node. */
  method BuildGraph(modules: seq<ModuleManifest>) returns (graph: map<Id, seq<Id>>)
    ensures forall a, b :: HasEdge(graph, a, b) <==> Links(modules, a, b)
    ensures forall a, b :: HasEdge(graph, a, b) <==> exists k, e :: IsDeclared(modules, k, e, a, b)
  {
    graph := map[];
    for k := 0 to |modules|
      invariant forall a, b :: HasEdge(graph, a, b) <==> Links(modules[..k], a, b)
    {
      ghost var smaller := graph;
      graph := AddModule(graph, modules[k]);
      forall a, b ensures HasEdge(graph, a, b) <==> Links(modules[..k + 1], a, b) {
        LinksOfOneMore(modules, k, a, b);
        assert HasEdge(smaller, a, b) <==> Links(modules[..k], a, b);
      }
    }
    assert modules[..|modules|] == modules;
    forall a, b ensures Links(modules, a, b) <==> exists k, e :: IsDeclared(modules, k, e, a, b) {
      LinksAreDeclared(modules, a, b);
    }
  }

  /** The k-th manifest, of this identity, declares the target in its e-th category, which is neither tests nor tools. */
  ghost predicate IsDeclared(modules: seq<ModuleManifest>, k: int, e: int, from: Id, to: Id) {
    && 0 <= k < |modules| && modules[k].id == from && 0 <= e < |modules[k].edges|
    && modules[k].edges[e].name !in {"test", "tool"} && to in modules[k].edges[e].targets
  }

  lemma LinksAreDeclared(modules: seq<ModuleManifest>, from: Id, to: Id)
    ensures Links(modules, from, to) <==> exists k, e :: IsDeclared(modules, k, e, from, to)
  {
    if Links(modules, from, to) {
      var k :| 0 <= k < |modules| && modules[k].id == from && Declares(modules[k], to);
      var e :| 0 <= e < |modules[k].edges| && Counts(modules[k].edges[e]) && to in modules[k].edges[e].targets;
      assert IsDeclared(modules, k, e, from, to);
    }
    if k, e :| IsDeclared(modules, k, e, from, to) {
      assert Counts(modules[k].edges[e]) && Declares(modules[k], to);
    }
  }

  lemma LinksOfOneMore(modules: seq<ModuleManifest>, k: nat, a: Id, b: Id)
    requires k < |modules|
    ensures Links(modules[..k + 1], a, b)
            <==> Links(modules[..k], a, b) || (a == modules[k].id && Declares(modules[k], b))
  {
    var longer := modules[..k + 1];
    assert longer[k] == modules[k];
    if Links(modules[..k], a, b) {
      var i :| 0 <= i < k && modules[..k][i].id == a && Declares(modules[..k][i], b);
      assert longer[i].id == a && Declares(longer[i], b);
    }
    if Links(longer, a, b) {
      var i :| 0 <= i < |longer| && longer[i].id == a && Declares(longer[i], b);
      if i < k {
        assert modules[..k][i].id == a && Declares(modules[..k][i], b);
      }
    }
  }

  // ---- walks

  lemma WalkJoins(modules: seq<ModuleManifest>, walk: seq<Id>, next: Id)
    requires walk != [] && IsWalk(modules, walk) && Links(modules, walk[|walk| - 1], next)
    ensures IsWalk(modules, walk + [next])
  {
    var longer := walk + [next];
    forall k | 0 <= k < |longer| - 1 ensures TakesEdge(modules, longer, k) {
      assert k < |walk| - 1 ==> TakesEdge(modules, walk, k);
    }
  }

  lemma WalkTail(modules: seq<ModuleManifest>, walk: seq<Id>, from: nat)
    requires from < |walk| && IsWalk(modules, walk)
    ensures IsWalk(modules, walk[from..])
  {
    forall k | 0 <= k < |walk[from..]| - 1 ensures TakesEdge(modules, walk[from..], k) {
      assert TakesEdge(modules, walk, from + k);
    }
  }

  lemma WalkFront(modules: seq<ModuleManifest>, walk: seq<Id>)
    requires walk != [] && IsWalk(modules, walk)
    ensures IsWalk(modules, walk[..|walk| - 1])
  {
    var front := walk[..|walk| - 1];
    forall k | 0 <= k < |front| - 1 ensures TakesEdge(modules, front, k) {
      assert TakesEdge(modules, walk, k);
    }
  }

  ghost predicate Closed(modules: seq<ModuleManifest>, inside: set<Id>) {
    forall a, b :: a in inside && Links(modules, a, b) ==> b in inside
  }

  /** A set no edge leaves keeps every walk that starts in it. */
  lemma {:induction false} WalkStaysInside(modules: seq<ModuleManifest>, inside: set<Id>, walk: seq<Id>, k: nat)
    requires Closed(modules, inside)
    requires k < |walk| && IsWalk(modules, walk) && walk[0] in inside
    ensures walk[k] in inside
  {
    if k > 0 {
      WalkStaysInside(modules, inside, walk, k - 1);
      assert TakesEdge(modules, walk, k - 1);
    }
  }

  /** The state of one search. The path from the root to the module being visited is a ghost. */
  class CycleSearch {
    ghost const modules: seq<ModuleManifest>
    ghost const universe: set<Id>
    ghost var path: seq<Id>
    var graph: map<Id, seq<Id>>
    var visiting: set<Id>
    var done: set<Id>
    var cycleAt: Id

    ghost predicate Valid()
      reads this
    {
      && (forall a, b :: HasEdge(graph, a, b) <==> Links(modules, a, b))
      && (forall a, b :: Links(modules, a, b) ==> b in universe)
      && visiting <= universe && done !! visiting
      && Closed(modules, done)
      && (forall a | a in done :: !OnCycle(modules, a))
      && IsWalk(modules, path)
      && (forall a :: a in visiting <==> a in path)
    }

    constructor (modules: seq<ModuleManifest>, graph: map<Id, seq<Id>>)
      requires forall a, b :: HasEdge(graph, a, b) <==> Links(modules, a, b)
      ensures Valid() && done == {} && path == [] && this.modules == modules
      ensures forall m | m in modules :: m.id in universe
    {
      this.modules := modules;
      this.universe := (set m | m in modules :: m.id) + (set a, b | a in graph && b in graph[a] :: b);
      this.graph := graph;
      this.path, this.visiting, this.done, this.cycleAt := [], {}, {}, "";
    }

    /** Opens a module; looking its successors up creates an empty list where there is none. */
    method Enter(node: Id)
      requires Valid() && node in universe && node !in done && node !in visiting
      requires path != [] ==> Links(modules, path[|path| - 1], node)
      modifies this
      ensures Valid() && path == old(path) + [node] && visiting == old(visiting) + {node} && done == old(done)
      ensures node in graph
    {
      visiting := visiting + {node};
      if path != [] {
        WalkJoins(modules, path, node);
      }
      path := path + [node];
      if node !in graph {
        ghost var same := graph;
        graph := graph[node := []];
        assert forall a, b :: HasEdge(graph, a, b) <==> HasEdge(same, a, b);
      }
    }

    /** Closes a module none of whose successors led to a cycle. */
    method Leave(node: Id)
      requires Valid() && path != [] && path[|path| - 1] == node && node !in path[..|path| - 1]
      requires forall b :: Links(modules, node, b) ==> b in done
      modifies this
      ensures Valid() && path == old(path[..|path| - 1]) && visiting == old(visiting) - {node}
      ensures done == old(done) + {node}
    {
      NotOnCycle(modules, done, node);
      ghost var front := path[..|path| - 1];
      assert path == front + [node];
      WalkFront(modules, path);
      visiting := visiting - {node};
      path := front;
      done := done + {node};
    }

    /** Searches below one module: true stops the whole search with `cycleAt` on a cycle. */
    method Visit(node: Id) returns (found: bool)
      requires Valid() && node in universe
      requires path != [] ==> Links(modules, path[|path| - 1], node)
      modifies this
      ensures found ==> OnCycle(modules, cycleAt)
      ensures !found ==> Valid() && path == old(path) && visiting == old(visiting)
      ensures !found ==> old(done) <= done && node in done
      decreases universe - visiting, 0
    {
      if node in done {
        return false;
      }
      if node in visiting {
        cycleAt := node;
        ClosesCycle(modules, path, node);
        return true;
      }
      Enter(node);
      found := VisitTargets(node, graph[node]);
      if !found {
        Leave(node);
      }
    }

    /** Visits the successors of the module being visited, in listing order, up to the first cycle. */
    method VisitTargets(node: Id, targets: seq<Id>) returns (found: bool)
      requires Valid() && path != [] && path[|path| - 1] == node
      requires node in graph && targets == graph[node]
      modifies this
      ensures found ==> OnCycle(modules, cycleAt)
      ensures !found ==> Valid() && path == old(path) && visiting == old(visiting)
      ensures !found ==> old(done) <= done && forall b :: Links(modules, node, b) ==> b in done
      decreases universe - visiting, 1
    {
      for k := 0 to |targets|
        invariant Valid() && path == old(path) && visiting == old(visiting)
        invariant old(done) <= done
        invariant forall j | 0 <= j < k :: targets[j] in done
      {
        assert HasEdge(old(graph), node, targets[k]);
        found := Visit(targets[k]);
        if found {
          return true;
        }
      }
      assert forall b :: Links(modules, node, b) ==> HasEdge(old(graph), node, b);
      return false;
    }
  }

  lemma ClosesCycle(modules: seq<ModuleManifest>, path: seq<Id>, node: Id)
    requires node in path && IsWalk(modules, path) && Links(modules, path[|path| - 1], node)
    ensures OnCycle(modules, node)
  {
    var k :| 0 <= k < |path| && path[k] == node;
    WalkTail(modules, path, k);
    WalkJoins(modules, path[k..], node);
    assert ReturnsTo(modules, path[k..] + [node], node);
  }

  /** A module outside a closed set that all its successors are in is on no cycle. */
  lemma NotOnCycle(modules: seq<ModuleManifest>, closed: set<Id>, node: Id)
    requires node !in closed && forall b :: Links(modules, node, b) ==> b in closed
    requires Closed(modules, closed)
    ensures !OnCycle(modules, node)
  {
    forall walk: seq<Id> | |walk| >= 2 && walk[0] == node && IsWalk(modules, walk)
      ensures walk[|walk| - 1] != node
    {
      assert TakesEdge(modules, walk, 0);
      WalkTail(modules, walk, 1);
      WalkStaysInside(modules, closed, walk[1..], |walk| - 2);
    }
  }

  /** Every module on a cycle is declared by some manifest, so the roots reach them all. */
  lemma CyclesRunThroughManifests(modules: seq<ModuleManifest>, id: Id)
    requires OnCycle(modules, id)
    ensures exists k :: 0 <= k < |modules| && modules[k].id == id
  {
    var walk :| ReturnsTo(modules, walk, id);
    assert TakesEdge(modules, walk, 0);
  }

  /** Exactly the graphs with a directed cycle are refused, and the module named lies on one. */
  method HasCycle(modules: seq<ModuleManifest>) returns (found: bool, cycleAt: Id)
    ensures found <==> exists id :: OnCycle(modules, id)
    ensures found ==> OnCycle(modules, cycleAt)
  {
    var graph := BuildGraph(modules);
    var search := new CycleSearch(modules, graph);
    for k := 0 to |modules|
      invariant search.Valid() && search.path == [] && search.modules == modules
      invariant forall m | m in modules :: m.id in search.universe
      invariant forall j | 0 <= j < k :: modules[j].id in search.done
    {
      assert modules[k] in modules;
      found := search.Visit(modules[k].id);
      if found {
        return true, search.cycleAt;
      }
    }
    forall id ensures !OnCycle(modules, id) {
      if OnCycle(modules, id) {
        CyclesRunThroughManifests(modules, id);
      }
    }
    return false, search.cycleAt;
  }
}
