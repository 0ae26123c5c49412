/**
 The module registry and the order in which modules are started.
 */
module ModuleRegistry {
  import opened Prelude
  import opened DependencyOrder

  datatype ModuleManifest = ModuleManifest(id: string, version: string, dependsOn: seq<string>, permissions: seq<string>)

  datatype RegisteredModule = RegisteredModule(manifest: ModuleManifest, registeredAt: int)

  function GraphOf(modules: map<string, RegisteredModule>): Graph {
    map k | k in modules :: modules[k].manifest.dependsOn
  }

  /** `order` lists the modules done, `inStack` holds those being visited. */
  ghost predicate Tracks(
      modules: map<string, RegisteredModule>, path: seq<string>,
      visited: set<string>, inStack: set<string>, order: seq<RegisteredModule>, ids: seq<string>) {
    && inStack == Elements(path)
    && visited == Elements(ids)
    && |order| == |ids|
    && forall i :: 0 <= i < |ids| ==> ids[i] in modules && order[i] == modules[ids[i]]
  }

  lemma {:induction false} PopKeeps(
      modules: map<string, RegisteredModule>, path: seq<string>, id: string,
      visited: set<string>, inStack: set<string>, order: seq<RegisteredModule>, ids: seq<string>)
    requires Tracks(modules, path + [id], visited, inStack, order, ids) && id !in path && id in modules
    ensures Tracks(modules, path, visited + {id}, inStack - {id}, order + [modules[id]], ids + [id])
  {
  }

  lemma {:induction false} PushKeeps(
      modules: map<string, RegisteredModule>, path: seq<string>, id: string,
      visited: set<string>, inStack: set<string>, order: seq<RegisteredModule>, ids: seq<string>)
    requires Tracks(modules, path, visited, inStack, order, ids)
    ensures Tracks(modules, path + [id], visited, inStack + {id}, order, ids)
  {
  }

  /** The variables `visit` shares over its recursive calls. */
  class InitWalk {
    const modules: map<string, RegisteredModule>
    var visited: set<string>
    var inStack: set<string>
    var order: seq<RegisteredModule>
    ghost var ids: seq<string>

    constructor (modules: map<string, RegisteredModule>)
      ensures this.modules == modules && Valid([]) && ids == []
    {
      this.modules := modules;
      visited, inStack, order, ids := {}, {}, [], [];
    }

    ghost predicate Valid(path: seq<string>)
      reads this
    {
      Tracks(modules, path, visited, inStack, order, ids)
    }

    method Visit(id: string, ghost path: seq<string>) returns (failed: Option<OrderError>)
      requires Valid(path)
      modifies this
      ensures match failed
              case None => Valid(path) && DependencyOrder.Visit(GraphOf(modules), id, path, old(ids)) == Ok(ids)
              case Some(e) => DependencyOrder.Visit(GraphOf(modules), id, path, old(ids)) == Err(e)
      decreases |modules.Keys - Elements(path)|
    {
      if id in visited {
        return None;
      }
      if id in inStack {
        return Some(Circular(id));
      }
      if id !in modules {
        return Some(Unknown(id));
      }
      var reg := modules[id];
      PushKeeps(modules, path, id, visited, inStack, order, ids);
      inStack := inStack + {id};
      ghost var deeper, start, g := path + [id], ids, GraphOf(modules);
      Deeper(g, id, path);
      assert g.Keys == modules.Keys;
      var deps := reg.manifest.dependsOn;
      for i := 0 to |deps|
        invariant Valid(deeper)
        invariant VisitAll(g, deps, deeper, start) == VisitAll(g, deps[i..], deeper, ids)
      {
        assert deps[i..][1..] == deps[i + 1..];
        failed := Visit(deps[i], deeper);
        if failed.Some? {
          return;
        }
      }
      PopKeeps(modules, path, id, visited, inStack, order, ids);
      inStack := inStack - {id};
      visited := visited + {id};
      order := order + [reg];
      ids := ids + [id];
      return None;
    }
  }

  class Registry {
    var modules: map<string, RegisteredModule>
    /** The keys of the map in the order they were inserted. */
    var ids: seq<string>

    constructor ()
      ensures Valid() && ids == []
    {
      modules, ids := map[], [];
    }

    ghost predicate Valid()
      reads this
    {
      && Distinct(ids)
      && (forall k :: k in ids <==> k in modules)
      && (forall k :: k in modules ==> modules[k].manifest.id == k)
    }

    method Register(manifest: ModuleManifest, now: int)
      requires Valid()
      modifies this
      ensures Valid()
      ensures manifest.id in old(modules) ==> modules == old(modules) && ids == old(ids)
      ensures manifest.id !in old(modules) ==>
                && ids == old(ids) + [manifest.id]
                && modules == old(modules)[manifest.id := RegisteredModule(manifest, now)]
    {
      var id := manifest.id;
      if id in modules {
        return;
      }
      modules := modules[id := RegisteredModule(manifest, now)];
      ids := ids + [id];
    }

    /** Succeeds exactly when every dependency is registered and there is no cycle. Then
        it lists every module once, each after the modules it depends on; otherwise the
        error names a module on a cycle or a dependency that is not registered. */
    method ResolveInitOrder() returns (r: Result<seq<RegisteredModule>, OrderError>)
      requires Valid()
      ensures r.Ok? <==> ClosedGraph(GraphOf(modules)) && Acyclic(GraphOf(modules))
      ensures r.Ok? ==> StartsInOrder(modules, r.value)
      ensures r.Err? ==> Blames(GraphOf(modules), [], r.error)
    {
      var walk := new InitWalk(modules);
      ghost var g := GraphOf(modules);
      OrderSucceedsExactlyWhen(g, ids);
      for i := 0 to |ids|
        invariant walk.Valid([]) && walk.modules == modules
        invariant Order(g, ids) == VisitAll(g, ids[i..], [], walk.ids)
      {
        assert ids[i..][1..] == ids[i + 1..];
        var failed := walk.Visit(ids[i], []);
        if failed.Some? {
          return Err(failed.value);
        }
      }
      IdsOfOrder(modules, walk.ids, walk.order);
      return Ok(walk.order);
    }
  }

  /** Every module once, each after all the modules it depends on. */
  ghost predicate StartsInOrder(modules: map<string, RegisteredModule>, order: seq<RegisteredModule>) {
    && (forall i :: 0 <= i < |order| ==> order[i].manifest.id in modules && order[i] == modules[order[i].manifest.id])
    && (forall i, j :: 0 <= i < j < |order| ==> order[i].manifest.id != order[j].manifest.id)
    && (forall k :: k in modules ==> modules[k] in order)
    && (forall i, d :: 0 <= i < |order| && d in order[i].manifest.dependsOn ==>
          d in modules && modules[d] in order[..i])
  }

  lemma {:induction false} IdsOfOrder(modules: map<string, RegisteredModule>, ids: seq<string>, order: seq<RegisteredModule>)
    requires forall k :: k in modules ==> modules[k].manifest.id == k
    requires |order| == |ids| && forall i :: 0 <= i < |ids| ==> ids[i] in modules && order[i] == modules[ids[i]]
    requires Topological(GraphOf(modules), ids) && forall k :: k in modules ==> k in ids
    ensures StartsInOrder(modules, order)
  {
    forall k | k in modules ensures modules[k] in order {
      var i :| 0 <= i < |ids| && ids[i] == k;
      assert order[i] == modules[k];
    }
    forall i, d | 0 <= i < |order| && d in order[i].manifest.dependsOn ensures d in modules && modules[d] in order[..i] {
      assert Before(GraphOf(modules), ids, i, ids[i]);
      var j :| 0 <= j < i && ids[j] == d;
      assert order[..i][j] == modules[d];
    }
  }
}
