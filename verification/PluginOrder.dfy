/**
 The order in which plugins are loaded: dependencies on plugins that are not among the
 given manifests are ignored, and of manifests with the same name only the first counts.
 */
module PluginOrder {
  import opened Prelude
  import opened DependencyOrder

  datatype PluginDependency = PluginDependency(name: string, range: string, required: bool)

  datatype PluginManifest = PluginManifest(name: string, version: string, dependencies: seq<PluginDependency>)

  /** The first manifest of the name. */
  function FindManifest(manifests: seq<PluginManifest>, name: string): Option<PluginManifest> {
    if manifests == [] then None
    else if manifests[0].name == name then Some(manifests[0])
    else FindManifest(manifests[1..], name)
  }

  function Names(manifests: seq<PluginManifest>): set<string> {
    set m | m in manifests :: m.name
  }

  lemma {:induction false} FindManifestFinds(manifests: seq<PluginManifest>, name: string)
    ensures FindManifest(manifests, name).Some? <==> name in Names(manifests)
    ensures FindManifest(manifests, name).Some? ==>
              FindManifest(manifests, name).value in manifests && FindManifest(manifests, name).value.name == name
  {
    if manifests != [] {
      FindManifestFinds(manifests[1..], name);
      assert manifests == [manifests[0]] + manifests[1..];
      assert forall m :: m in manifests <==> m == manifests[0] || m in manifests[1..];
    }
  }

  /** The names of the dependencies that are among the given names. */
  function Within(deps: seq<PluginDependency>, names: set<string>): seq<string> {
    if deps == [] then []
    else (if deps[0].name in names then [deps[0].name] else []) + Within(deps[1..], names)
  }

  /** Visiting the remaining dependencies is visiting the next one, if it is given. */
  lemma {:induction false} VisitNext(
      g: Graph, deps: seq<PluginDependency>, i: int, names: set<string>, path: seq<string>, order: seq<string>)
    requires 0 <= i < |deps|
    ensures deps[i].name !in names ==> Within(deps[i..], names) == Within(deps[i + 1..], names)
    ensures deps[i].name in names ==>
              var next := Visit(g, deps[i].name, path, order);
              VisitAll(g, Within(deps[i..], names), path, order)
              == if next.Err? then next else VisitAll(g, Within(deps[i + 1..], names), path, next.value)
  {
    assert deps[i..][1..] == deps[i + 1..];
    HeadTail(deps[i].name, Within(deps[i + 1..], names));
  }

  lemma {:induction false} WithinMembers(deps: seq<PluginDependency>, names: set<string>, name: string)
    ensures name in Within(deps, names) <==> name in names && exists d :: d in deps && d.name == name
  {
    if deps != [] {
      WithinMembers(deps[1..], names, name);
      assert deps == [deps[0]] + deps[1..];
    }
  }

  function First(manifests: seq<PluginManifest>, name: string): PluginManifest
    requires name in Names(manifests)
  {
    FindManifestFinds(manifests, name);
    FindManifest(manifests, name).value
  }

  /** Which of the given plugins each given plugin depends on. */
  function GraphOf(manifests: seq<PluginManifest>): Graph {
    map k | k in Names(manifests) :: Within(First(manifests, k).dependencies, Names(manifests))
  }

  lemma {:induction false} GraphIsClosed(manifests: seq<PluginManifest>)
    ensures ClosedGraph(GraphOf(manifests))
  {
    var g := GraphOf(manifests);
    forall k, d | k in g && d in g[k] ensures d in g {
      WithinMembers(First(manifests, k).dependencies, Names(manifests), d);
    }
  }

  /** A plugin depends in the graph on exactly the given names that the first manifest of its
      own name lists. */
  lemma {:induction false} EdgesAre(manifests: seq<PluginManifest>, i: nat, name: string)
    requires i < |manifests| && forall j :: 0 <= j < i ==> manifests[j].name != manifests[i].name
    ensures manifests[i].name in GraphOf(manifests)
    ensures name in GraphOf(manifests)[manifests[i].name]
       <==> (exists m :: m in manifests && m.name == name) && (exists d :: d in manifests[i].dependencies && d.name == name)
  {
    FirstIsEarlier(manifests, i);
    assert manifests[i] in manifests;
    WithinMembers(manifests[i].dependencies, Names(manifests), name);
  }

  /** `sorted` lists the plugins done, `visiting` holds those being visited. */
  ghost predicate Tracks(
      manifests: seq<PluginManifest>, path: seq<string>,
      visited: set<string>, visiting: set<string>, sorted: seq<PluginManifest>, order: seq<string>) {
    && visiting == Elements(path)
    && visited == Elements(order)
    && |sorted| == |order|
    && forall i :: 0 <= i < |order| ==> order[i] in Names(manifests) && sorted[i] == First(manifests, order[i])
  }

  lemma {:induction false} PopKeeps(
      manifests: seq<PluginManifest>, path: seq<string>, name: string,
      visited: set<string>, visiting: set<string>, sorted: seq<PluginManifest>, order: seq<string>)
    requires Tracks(manifests, path + [name], visited, visiting, sorted, order) && name !in path && name in Names(manifests)
    ensures Tracks(
              manifests, path, visited + {name}, visiting - {name}, sorted + [First(manifests, name)], order + [name])
  {
  }

  lemma {:induction false} PushKeeps(
      manifests: seq<PluginManifest>, path: seq<string>, name: string,
      visited: set<string>, visiting: set<string>, sorted: seq<PluginManifest>, order: seq<string>)
    requires Tracks(manifests, path, visited, visiting, sorted, order)
    ensures Tracks(manifests, path + [name], visited, visiting + {name}, sorted, order)
  {
  }

  /** The variables `visit` shares over its recursive calls. */
  class OrderWalk {
    const manifests: seq<PluginManifest>
    const names: set<string>
    var visited: set<string>
    var visiting: set<string>
    var sorted: seq<PluginManifest>
    ghost var order: seq<string>

    constructor (manifests: seq<PluginManifest>)
      ensures this.manifests == manifests && Valid([]) && order == []
    {
      this.manifests := manifests;
      names := Names(manifests);
      visited, visiting, sorted, order := {}, {}, [], [];
    }

    ghost predicate Valid(path: seq<string>)
      reads this
    {
      names == Names(manifests) && Tracks(manifests, path, visited, visiting, sorted, order)
    }

    /** A manifest that is not the first of its name is met only once the first is done. */
    method Visit(manifest: PluginManifest, ghost path: seq<string>) returns (failed: Option<OrderError>)
      requires Valid(path) && manifest.name in names
      requires manifest == First(manifests, manifest.name) || manifest.name in visited
      modifies this
      ensures match failed
              case None =>
                && Valid(path)
                && DependencyOrder.Visit(GraphOf(manifests), manifest.name, path, old(order)) == Ok(order)
              case Some(e) => DependencyOrder.Visit(GraphOf(manifests), manifest.name, path, old(order)) == Err(e)
      decreases |Names(manifests) - Elements(path)|
    {
      if manifest.name in visited {
        return None;
      }
      if manifest.name in visiting {
        return Some(Circular(manifest.name));
      }
      PushKeeps(manifests, path, manifest.name, visited, visiting, sorted, order);
      visiting := visiting + {manifest.name};
      ghost var deeper, start, g := path + [manifest.name], order, GraphOf(manifests);
      assert g.Keys == Names(manifests);
      Deeper(g, manifest.name, path);
      var deps := manifest.dependencies;
      for i := 0 to |deps|
        invariant Valid(deeper)
        invariant VisitAll(g, g[manifest.name], deeper, start) == VisitAll(g, Within(deps[i..], names), deeper, order)
      {
        var name := deps[i].name;
        VisitNext(g, deps, i, names, deeper, order);
        if name in names {
          var found := FindManifest(manifests, name);
          FindManifestFinds(manifests, name);
          if found.Some? {
            failed := Visit(found.value, deeper);
            if failed.Some? {
              return;
            }
          }
        }
      }
      PopKeeps(manifests, path, manifest.name, visited, visiting, sorted, order);
      visiting := visiting - {manifest.name};
      visited := visited + {manifest.name};
      sorted := sorted + [manifest];
      order := order + [manifest.name];
      return None;
    }
  }

  /** The names in order; a name that occurs again is done by then. */
  function NamesOf(manifests: seq<PluginManifest>): (r: seq<string>)
    ensures |r| == |manifests|
  {
    seq(|manifests|, i requires 0 <= i < |manifests| => manifests[i].name)
  }

  lemma {:induction false} FirstIsEarlier(manifests: seq<PluginManifest>, i: nat)
    requires i < |manifests|
    ensures FindManifest(manifests, manifests[i].name) == Some(manifests[i])
         || exists j :: 0 <= j < i && manifests[j].name == manifests[i].name
  {
    if i > 0 && manifests[0].name != manifests[i].name {
      var rest := manifests[1..];
      FirstIsEarlier(rest, i - 1);
      if j :| 0 <= j < i - 1 && rest[j].name == rest[i - 1].name {
        assert manifests[j + 1].name == manifests[i].name;
      }
    }
  }

  /** Every given name once, by its first manifest, each after the given plugins it
      depends on. */
  ghost predicate LoadsInOrder(manifests: seq<PluginManifest>, sorted: seq<PluginManifest>) {
    && (forall i :: 0 <= i < |sorted| ==> FindManifest(manifests, sorted[i].name) == Some(sorted[i]))
    && (forall i, j :: 0 <= i < j < |sorted| ==> sorted[i].name != sorted[j].name)
    && (forall k :: k in Names(manifests) ==> First(manifests, k) in sorted)
    && (forall i, d :: 0 <= i < |sorted| && d in sorted[i].dependencies && d.name in Names(manifests) ==>
          First(manifests, d.name) in sorted[..i])
  }

  lemma {:induction false} NamesOfOrder(manifests: seq<PluginManifest>, order: seq<string>, sorted: seq<PluginManifest>)
    requires |sorted| == |order|
    requires forall i :: 0 <= i < |order| ==> order[i] in Names(manifests) && sorted[i] == First(manifests, order[i])
    requires Topological(GraphOf(manifests), order) && forall k :: k in Names(manifests) ==> k in order
    ensures LoadsInOrder(manifests, sorted)
  {
    forall i | 0 <= i < |sorted| ensures FindManifest(manifests, sorted[i].name) == Some(sorted[i]) && sorted[i].name == order[i] {
      FindManifestFinds(manifests, order[i]);
    }
    forall k | k in Names(manifests) ensures First(manifests, k) in sorted {
      var i :| 0 <= i < |order| && order[i] == k;
      assert sorted[i] == First(manifests, k);
    }
    forall i, d | 0 <= i < |sorted| && d in sorted[i].dependencies && d.name in Names(manifests)
      ensures First(manifests, d.name) in sorted[..i]
    {
      assert Before(GraphOf(manifests), order, i, order[i]);
      WithinMembers(sorted[i].dependencies, Names(manifests), d.name);
      var j :| 0 <= j < i && order[j] == d.name;
      assert sorted[..i][j] == First(manifests, d.name);
    }
  }

  ghost predicate AllDone(manifests: seq<PluginManifest>, order: seq<string>) {
    forall j :: 0 <= j < |manifests| ==> manifests[j].name in order
  }

  lemma {:induction false} FirstOrDone(manifests: seq<PluginManifest>, i: nat, order: seq<string>)
    requires i < |manifests| && AllDone(manifests[..i], order)
    ensures manifests[i].name in Names(manifests)
    ensures manifests[i] == First(manifests, manifests[i].name) || manifests[i].name in order
  {
    FirstIsEarlier(manifests, i);
    if j :| 0 <= j < i && manifests[j].name == manifests[i].name {
      assert manifests[..i][j].name in order;
    }
  }

  lemma {:induction false} DoneMore(manifests: seq<PluginManifest>, i: nat, before: seq<string>, after: seq<string>)
    requires i < |manifests| && AllDone(manifests[..i], before) && manifests[i].name in after
    requires forall k :: k in before ==> k in after
    ensures AllDone(manifests[..i + 1], after)
  {
    var more := manifests[..i + 1];
    forall j | 0 <= j < |more| ensures more[j].name in after {
      if j < i {
        assert manifests[..i][j].name in before;
      }
    }
  }

  /** Succeeds exactly when the given plugins depend on each other without a cycle. */
  method TopologicalOrder(manifests: seq<PluginManifest>) returns (r: Result<seq<PluginManifest>, OrderError>)
    ensures r.Ok? <==> Acyclic(GraphOf(manifests))
    ensures r.Ok? ==> LoadsInOrder(manifests, r.value)
    ensures r.Err? ==> r.error.Circular? && exists cycle :: IsCycle(GraphOf(manifests), cycle) && r.error.id in cycle
  {
    var walk := new OrderWalk(manifests);
    ghost var g, all := GraphOf(manifests), NamesOf(manifests);
    AllNames(manifests);
    GraphIsClosed(manifests);
    OrderSucceedsExactlyWhen(g, all);
    for i := 0 to |manifests|
      invariant walk.Valid([]) && walk.manifests == manifests
      invariant Order(g, all) == VisitAll(g, all[i..], [], walk.order)
      invariant Topological(g, walk.order) && AllDone(manifests[..i], walk.order)
    {
      var m := manifests[i];
      assert all[i..][1..] == all[i + 1..];
      FirstOrDone(manifests, i, walk.order);
      ghost var before := walk.order;
      var failed := walk.Visit(m, []);
      if failed.Some? {
        return Err(failed.value);
      }
      VisitExtends(g, m.name, [], before);
      DoneMore(manifests, i, before, walk.order);
    }
    NamesOfOrder(manifests, walk.order, walk.sorted);
    return Ok(walk.sorted);
  }

  lemma {:induction false} AllNames(manifests: seq<PluginManifest>)
    ensures forall k :: k in NamesOf(manifests) <==> k in GraphOf(manifests)
  {
    var all := NamesOf(manifests);
    forall k | k in Names(manifests) ensures k in all {
      var m :| m in manifests && m.name == k;
      var i :| 0 <= i < |manifests| && manifests[i] == m;
      assert all[i] == k;
    }
    forall k | k in all ensures k in Names(manifests) {
      var i :| 0 <= i < |all| && all[i] == k;
      assert manifests[i] in manifests;
    }
  }
}
