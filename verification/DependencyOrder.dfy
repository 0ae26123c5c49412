/**
 Ordering by depth-first search, as a function on a dependency graph: what module start
 order and plugin order share. It succeeds exactly on closed acyclic graphs, and then
 every node comes once, after its dependencies.
 */
module DependencyOrder {
  import opened Prelude

  /** The dependencies of each node, in the order they are declared. */
  type Graph = map<string, seq<string>>

  datatype OrderError = Circular(id: string) | Unknown(id: string)

  /** Visit `id` when the nodes of `path` are being visited and those of `order` are done. */
  function Visit(g: Graph, id: string, path: seq<string>, order: seq<string>): Result<seq<string>, OrderError>
    decreases |g.Keys - Elements(path)|, 0, 0
  {
    if id in order then Ok(order)
    else if id in path then Err(Circular(id))
    else if id !in g then Err(Unknown(id))
    else
      Deeper(g, id, path);
      var below := VisitAll(g, g[id], path + [id], order);
      if below.Err? then below else Ok(below.value + [id])
  }

  function VisitAll(g: Graph, ids: seq<string>, path: seq<string>, order: seq<string>): Result<seq<string>, OrderError>
    decreases |g.Keys - Elements(path)|, 1, |ids|
  {
    if ids == [] then Ok(order)
    else
      var next := Visit(g, ids[0], path, order);
      if next.Err? then next else VisitAll(g, ids[1..], path, next.value)
  }

  lemma {:induction false} Deeper(g: Graph, id: string, path: seq<string>)
    requires id in g && id !in path
    ensures |g.Keys - Elements(path + [id])| < |g.Keys - Elements(path)|
  {
    var less, more := g.Keys - Elements(path + [id]), g.Keys - Elements(path);
    assert less + {id} <= more && id !in less;
    SubsetSize(less + {id}, more);
  }

  // ---- what an order is ----

  /** Every dependency of `id` comes among the first `n` of the order. */
  ghost predicate Before(g: Graph, order: seq<string>, n: int, id: string)
    requires 0 <= n <= |order| && id in g
  {
    forall d :: d in g[id] ==> d in order[..n]
  }

  /** Nodes of the graph, once each, each after all its dependencies. */
  ghost predicate Topological(g: Graph, order: seq<string>) {
    && Distinct(order)
    && (forall i :: 0 <= i < |order| ==> order[i] in g && Before(g, order, i, order[i]))
  }

  ghost predicate ClosedGraph(g: Graph) {
    forall k, d :: k in g && d in g[k] ==> d in g
  }

  /** Each node depends on the next. */
  ghost predicate IsPath(g: Graph, path: seq<string>) {
    && (forall i :: 0 <= i < |path| ==> path[i] in g)
    && (forall i :: 0 <= i < |path| - 1 ==> path[i + 1] in g[path[i]])
  }

  /** A path whose last node depends on its first. */
  ghost predicate IsCycle(g: Graph, path: seq<string>) {
    path != [] && IsPath(g, path) && path[0] in g[path[|path| - 1]]
  }

  ghost predicate Acyclic(g: Graph) {
    forall path :: !IsCycle(g, path)
  }

  // ---- success ----

  lemma {:induction false} TopologicalAppend(g: Graph, order: seq<string>, id: string)
    requires Topological(g, order) && id in g && id !in order && Before(g, order, |order|, id)
    ensures Topological(g, order + [id])
  {
    var more := order + [id];
    forall i | 0 <= i < |more| ensures more[i] in g && Before(g, more, i, more[i]) {
      assert more[..i] == order[..i];
      assert i < |order| ==> Before(g, order, i, order[i]);
    }
  }

  /** The order grows, stays topological and never takes in a node being visited. */
  ghost predicate Extends(g: Graph, path: seq<string>, before: seq<string>, after: seq<string>) {
    && Topological(g, after)
    && (forall k :: k in before ==> k in after)
    && (forall k :: k in after ==> k in before || k !in path)
  }

  lemma {:induction false} VisitExtends(g: Graph, id: string, path: seq<string>, order: seq<string>)
    requires Topological(g, order) && Visit(g, id, path, order).Ok?
    ensures Extends(g, path, order, Visit(g, id, path, order).value)
    ensures id in Visit(g, id, path, order).value
    decreases |g.Keys - Elements(path)|, 0, 0
  {
    if id !in order {
      Deeper(g, id, path);
      AllExtend(g, g[id], path + [id], order);
      var below := VisitAll(g, g[id], path + [id], order).value;
      assert below[..|below|] == below;
      assert id in path + [id];
      TopologicalAppend(g, below, id);
    }
  }

  lemma {:induction false} AllExtend(g: Graph, ids: seq<string>, path: seq<string>, order: seq<string>)
    requires Topological(g, order) && VisitAll(g, ids, path, order).Ok?
    ensures Extends(g, path, order, VisitAll(g, ids, path, order).value)
    ensures forall k :: k in ids ==> k in VisitAll(g, ids, path, order).value
    decreases |g.Keys - Elements(path)|, 1, |ids|
  {
    if ids != [] {
      VisitExtends(g, ids[0], path, order);
      AllExtend(g, ids[1..], path, Visit(g, ids[0], path, order).value);
      assert ids == [ids[0]] + ids[1..];
    }
  }

  // ---- failure ----

  /** The error names a node on a cycle, or a dependency that is not in the graph. */
  ghost predicate Blames(g: Graph, ids: seq<string>, e: OrderError) {
    match e
    case Circular(id) => exists cycle :: IsCycle(g, cycle) && id in cycle
    case Unknown(id) => id !in g && (id in ids || exists k :: k in g && id in g[k])
  }

  lemma {:induction false} CycleFrom(g: Graph, path: seq<string>, i: int)
    requires 0 <= i < |path| && IsPath(g, path) && path[i] in g[path[|path| - 1]]
    ensures IsCycle(g, path[i..]) && path[i] in path[i..]
  {
    var cycle := path[i..];
    assert forall j :: 0 <= j < |cycle| ==> cycle[j] == path[i + j];
    assert cycle[0] == path[i];
  }

  lemma {:induction false} PathLonger(g: Graph, path: seq<string>, id: string)
    requires IsPath(g, path) && id in g && (path != [] ==> id in g[path[|path| - 1]])
    ensures IsPath(g, path + [id])
  {
  }

  lemma {:induction false} VisitBlames(g: Graph, id: string, path: seq<string>, order: seq<string>)
    requires IsPath(g, path) && (path != [] ==> id in g[path[|path| - 1]])
    requires Visit(g, id, path, order).Err?
    ensures Blames(g, [id], Visit(g, id, path, order).error)
    ensures path != [] ==> Blames(g, [], Visit(g, id, path, order).error)
    decreases |g.Keys - Elements(path)|, 0, 0
  {
    if id in path {
      var i :| 0 <= i < |path| && path[i] == id;
      CycleFrom(g, path, i);
    } else if id in g {
      Deeper(g, id, path);
      PathLonger(g, path, id);
      AllBlame(g, g[id], path + [id], order);
    }
  }

  lemma {:induction false} AllBlame(g: Graph, ids: seq<string>, path: seq<string>, order: seq<string>)
    requires IsPath(g, path) && (path != [] ==> forall i :: 0 <= i < |ids| ==> ids[i] in g[path[|path| - 1]])
    requires VisitAll(g, ids, path, order).Err?
    ensures Blames(g, ids, VisitAll(g, ids, path, order).error)
    ensures path != [] ==> Blames(g, [], VisitAll(g, ids, path, order).error)
    decreases |g.Keys - Elements(path)|, 1, |ids|
  {
    assert ids == [ids[0]] + ids[1..];
    var next := Visit(g, ids[0], path, order);
    if next.Err? {
      VisitBlames(g, ids[0], path, order);
    } else {
      AllBlame(g, ids[1..], path, next.value);
    }
  }

  // ---- the whole order ----

  function Order(g: Graph, ids: seq<string>): Result<seq<string>, OrderError> {
    VisitAll(g, ids, [], [])
  }

  /** Positions fall along a path, so an order of the whole graph leaves no cycle. */
  lemma {:induction false} PositionsFall(g: Graph, order: seq<string>, path: seq<string>, p: int, q: int)
    requires Topological(g, order) && IsPath(g, path) && path != []
    requires 0 <= p < |order| && order[p] == path[0] && 0 <= q < |order| && order[q] == path[|path| - 1]
    ensures q <= p
    decreases |path|
  {
    if |path| > 1 {
      assert Before(g, order, p, order[p]);
      assert path[1] in order[..p];
      var r :| 0 <= r < p && order[r] == path[1];
      PositionsFall(g, order, path[1..], r, q);
    }
  }

  lemma {:induction false} OrderedIsAcyclic(g: Graph, order: seq<string>)
    requires Topological(g, order) && forall k :: k in g ==> k in order
    ensures ClosedGraph(g) && Acyclic(g)
  {
    forall k, d | k in g && d in g[k] ensures d in g {
      var i :| 0 <= i < |order| && order[i] == k;
      assert Before(g, order, i, order[i]);
    }
    forall path ensures !IsCycle(g, path) {
      if IsCycle(g, path) {
        var last := path[|path| - 1];
        var q :| 0 <= q < |order| && order[q] == last;
        assert Before(g, order, q, order[q]) && path[0] in order[..q];
        var p :| 0 <= p < q && order[p] == path[0];
        PositionsFall(g, order, path, p, q);
      }
    }
  }

  /** Visiting every node succeeds exactly on a closed graph without cycles; then every
      node comes exactly once, after its dependencies. */
  lemma {:induction false} OrderSucceedsExactlyWhen(g: Graph, ids: seq<string>)
    requires forall k :: k in ids <==> k in g
    ensures Order(g, ids).Ok? <==> ClosedGraph(g) && Acyclic(g)
    ensures Order(g, ids).Ok? ==>
              Topological(g, Order(g, ids).value) && forall k :: k in Order(g, ids).value <==> k in g
    ensures Order(g, ids).Err? ==> Blames(g, ids, Order(g, ids).error)
  {
    if Order(g, ids).Ok? {
      AllExtend(g, ids, [], []);
      OrderedIsAcyclic(g, Order(g, ids).value);
    } else {
      AllBlame(g, ids, [], []);
    }
  }
}
