/**
 The permission decision: a depth-first walk over the member's groups and the groups
 they inherit from, keeping the most specific grant and the most specific denial. The
 theorems say which groups the walk visits and what the decision amounts to.
 */
module PermissionResolver {
  import opened Prelude
  import opened Claims

  datatype Effect = GRANT | DENY

  datatype Grant = Grant(claim: string, effect: Effect)

  datatype Group = Group(key: string, priority: int, grants: seq<Grant>, parents: seq<string>)

  datatype Context = Context(
    isBotOwner: bool, isGuildOwner: bool, defaultGroupKeys: seq<string>, memberRoleIds: seq<string>,
    roleToGroups: map<string, seq<string>>, groups: map<string, Group>)

  datatype Match = Match(specificity: real, groupKey: string, matchedClaim: string)

  datatype Reason =
    | Global
    | ByGroup(effect: Effect, groupKey: string, matchedClaim: string)
    | Fallback

  datatype Decision = Decision(allowed: bool, reason: Reason)

  datatype ResolveError = BadClaim(raw: string) | TooDeep(groupKey: string)

  /** Every group is filed under its own key, as the permission cache builds the context. */
  ghost predicate WellKeyed(ctx: Context) {
    forall k :: k in ctx.groups ==> ctx.groups[k].key == k
  }

  // ---- the starting groups ----

  function AddAll(keys: seq<string>, more: seq<string>): (r: seq<string>)
    decreases |more|
  {
    if more == [] then keys
    else AddAll(if more[0] in keys then keys else keys + [more[0]], more[1..])
  }

  lemma {:induction false} AddAllMembers(keys: seq<string>, more: seq<string>)
    requires Distinct(keys)
    ensures Distinct(AddAll(keys, more))
    ensures forall k :: k in AddAll(keys, more) <==> k in keys || k in more
    decreases |more|
  {
    if more != [] {
      AddAllMembers(if more[0] in keys then keys else keys + [more[0]], more[1..]);
      assert more == [more[0]] + more[1..];
    }
  }

  function RoleGroups(ctx: Context, roles: seq<string>): seq<string> {
    if roles == [] then []
    else (if roles[0] in ctx.roleToGroups then ctx.roleToGroups[roles[0]] else []) + RoleGroups(ctx, roles[1..])
  }

  /** A default group, or a group of one of the member's roles. */
  ghost predicate IsStart(ctx: Context, key: string) {
    || key in ctx.defaultGroupKeys
    || exists r :: r in ctx.memberRoleIds && r in ctx.roleToGroups && key in ctx.roleToGroups[r]
  }

  function StartKeys(ctx: Context): seq<string> {
    AddAll(AddAll([], ctx.defaultGroupKeys), RoleGroups(ctx, ctx.memberRoleIds))
  }

  lemma {:induction false} RoleGroupsMembers(ctx: Context, roles: seq<string>, key: string)
    ensures key in RoleGroups(ctx, roles)
       <==> exists r :: r in roles && r in ctx.roleToGroups && key in ctx.roleToGroups[r]
  {
    if roles != [] {
      RoleGroupsMembers(ctx, roles[1..], key);
      assert roles == [roles[0]] + roles[1..];
    }
  }

  lemma {:induction false} StartKeysAreStarts(ctx: Context)
    ensures Distinct(StartKeys(ctx))
    ensures forall k :: k in StartKeys(ctx) <==> IsStart(ctx, k)
  {
    AddAllMembers([], ctx.defaultGroupKeys);
    AddAllMembers(AddAll([], ctx.defaultGroupKeys), RoleGroups(ctx, ctx.memberRoleIds));
    forall k ensures k in StartKeys(ctx) <==> IsStart(ctx, k) {
      RoleGroupsMembers(ctx, ctx.memberRoleIds, k);
    }
  }

  /** The groups that exist among the keys. */
  function Existing(ctx: Context, keys: seq<string>): seq<Group> {
    if keys == [] then []
    else (if keys[0] in ctx.groups then [ctx.groups[keys[0]]] else []) + Existing(ctx, keys[1..])
  }

  lemma {:induction false} ExistingMembers(ctx: Context, keys: seq<string>, g: Group)
    ensures g in Existing(ctx, keys) <==> exists k :: k in keys && k in ctx.groups && g == ctx.groups[k]
  {
    if keys != [] {
      ExistingMembers(ctx, keys[1..], g);
      assert keys == [keys[0]] + keys[1..];
    }
  }

  /** Put a group behind those of equal or higher priority. */
  function Insert(g: Group, sorted: seq<Group>): (r: seq<Group>)
    ensures multiset(r) == multiset(sorted) + multiset{g}
  {
    if sorted == [] || g.priority > sorted[0].priority then [g] + sorted
    else
      assert sorted == [sorted[0]] + sorted[1..];
      [sorted[0]] + Insert(g, sorted[1..])
  }

  /** A stable sort by falling priority. */
  function ByPriority(groups: seq<Group>): (r: seq<Group>)
    ensures multiset(r) == multiset(groups)
  {
    if groups == [] then []
    else
      var n := |groups| - 1;
      assert groups == groups[..n] + [groups[n]];
      Insert(groups[n], ByPriority(groups[..n]))
  }

  ghost predicate Falling(groups: seq<Group>) {
    forall i, j :: 0 <= i < j < |groups| ==> groups[i].priority >= groups[j].priority
  }

  lemma {:induction false} InsertKeepsFalling(g: Group, sorted: seq<Group>)
    requires Falling(sorted)
    ensures Falling(Insert(g, sorted))
    ensures forall x :: x in Insert(g, sorted) ==> x == g || x in sorted
  {
    if sorted != [] && g.priority <= sorted[0].priority {
      var rest := sorted[1..];
      InsertKeepsFalling(g, rest);
      var more := Insert(g, rest);
      forall j | 0 <= j < |more| ensures sorted[0].priority >= more[j].priority {
        assert more[j] in more;
      }
    }
  }

  lemma {:induction false} ByPriorityIsFalling(groups: seq<Group>)
    ensures Falling(ByPriority(groups))
  {
    if groups != [] {
      var n := |groups| - 1;
      ByPriorityIsFalling(groups[..n]);
      InsertKeepsFalling(groups[n], ByPriority(groups[..n]));
    }
  }

  /** The groups of one priority, in order. */
  function OfPriority(groups: seq<Group>, priority: int): seq<Group> {
    if groups == [] then []
    else Alone(groups[0], priority) + OfPriority(groups[1..], priority)
  }

  /** The group on its own, if it has the priority. */
  function Alone(g: Group, priority: int): seq<Group> {
    if g.priority == priority then [g] else []
  }

  lemma {:induction false} OfPriorityCons(g: Group, groups: seq<Group>, priority: int)
    ensures OfPriority([g] + groups, priority) == Alone(g, priority) + OfPriority(groups, priority)
  {
    HeadTail(g, groups);
  }

  lemma {:induction false} OfPriorityAppend(groups: seq<Group>, g: Group, priority: int)
    ensures OfPriority(groups + [g], priority)
         == OfPriority(groups, priority) + Alone(g, priority)
  {
    if groups == [] {
      assert OfPriority([g][1..], priority) == [];
    } else {
      OfPriorityAppend(groups[1..], g, priority);
      assert (groups + [g])[1..] == groups[1..] + [g];
    }
  }

  lemma {:induction false} NoneOfPriority(groups: seq<Group>, priority: int)
    requires forall i :: 0 <= i < |groups| ==> groups[i].priority != priority
    ensures OfPriority(groups, priority) == []
  {
    if groups != [] {
      NoneOfPriority(groups[1..], priority);
    }
  }

  lemma {:induction false} InsertIsStable(g: Group, sorted: seq<Group>, priority: int)
    requires Falling(sorted)
    ensures OfPriority(Insert(g, sorted), priority) == OfPriority(sorted, priority) + Alone(g, priority)
  {
    if sorted != [] && g.priority <= sorted[0].priority {
      InsertIsStable(g, sorted[1..], priority);
      OfPriorityCons(sorted[0], Insert(g, sorted[1..]), priority);
      Regroup3(Alone(sorted[0], priority), OfPriority(sorted[1..], priority), Alone(g, priority));
    } else {
      OfPriorityCons(g, sorted, priority);
      if g.priority == priority {
        NoneOfPriority(sorted, priority);
      }
    }
  }

  lemma {:induction false} ByPriorityNext(front: seq<Group>, last: Group)
    ensures ByPriority(front + [last]) == Insert(last, ByPriority(front))
  {
    assert (front + [last])[..|front|] == front;
  }

  /** Groups of one priority keep their order. */
  lemma {:induction false} ByPriorityIsStable(groups: seq<Group>, priority: int)
    ensures OfPriority(ByPriority(groups), priority) == OfPriority(groups, priority)
  {
    if groups != [] {
      var front, last := groups[..|groups| - 1], groups[|groups| - 1];
      assert groups == front + [last];
      ByPriorityIsStable(front, priority);
      StableNext(groups, front, last, priority);
    }
  }

  lemma {:induction false} StableNext(groups: seq<Group>, front: seq<Group>, last: Group, priority: int)
    requires groups == front + [last]
    requires OfPriority(ByPriority(front), priority) == OfPriority(front, priority)
    ensures OfPriority(ByPriority(groups), priority) == OfPriority(groups, priority)
  {
    ByPriorityNext(front, last);
    ByPriorityIsFalling(front);
    InsertIsStable(last, ByPriority(front), priority);
    OfPriorityAppend(front, last, priority);
  }

  function Starts(ctx: Context): seq<Group> {
    ByPriority(Existing(ctx, StartKeys(ctx)))
  }

  lemma {:induction false} StartsAre(ctx: Context, g: Group)
    ensures g in Starts(ctx) <==> exists k :: IsStart(ctx, k) && k in ctx.groups && g == ctx.groups[k]
  {
    StartKeysAreStarts(ctx);
    ExistingMembers(ctx, StartKeys(ctx), g);
    assert g in Starts(ctx) <==> g in multiset(Existing(ctx, StartKeys(ctx)));
  }

  // ---- the walk ----

  datatype State = State(visited: set<string>, bestGrant: Option<Match>, bestDeny: Option<Match>)

  function Better(best: Option<Match>, m: Match): Option<Match> {
    if best.None? || m.specificity > best.value.specificity then Some(m) else best
  }

  function OnMatch(st: State, effect: Effect, m: Match): State {
    if effect == GRANT then st.(bestGrant := Better(st.bestGrant, m)) else st.(bestDeny := Better(st.bestDeny, m))
  }

  function Grants(required: string, key: string, grants: seq<Grant>, st: State): Result<State, ResolveError>
    decreases |grants|
  {
    if grants == [] then Ok(st)
    else
      var held := Parse(grants[0].claim);
      if held.Err? then Err(BadClaim(grants[0].claim))
      else if Covers(held.value, required) then
        var m := Match(Specificity(held.value), key, grants[0].claim);
        Grants(required, key, grants[1..], OnMatch(st, grants[0].effect, m))
      else Grants(required, key, grants[1..], st)
  }

  function Room(depth: int, maxDepth: int): nat {
    if depth > maxDepth then 0 else maxDepth + 1 - depth
  }

  function Walk(ctx: Context, required: string, group: Group, maxDepth: int, depth: int, st: State): Result<State, ResolveError>
    decreases Room(depth, maxDepth), 0, 0
  {
    if depth > maxDepth then Err(TooDeep(group.key))
    else if group.key in st.visited then Ok(st)
    else
      var own := Grants(required, group.key, group.grants, st.(visited := st.visited + {group.key}));
      if own.Err? then own else WalkParents(ctx, required, group.parents, maxDepth, depth + 1, own.value)
  }

  function WalkParents(
      ctx: Context, required: string, parents: seq<string>, maxDepth: int, depth: int, st: State): Result<State, ResolveError>
    decreases Room(depth, maxDepth), 1, |parents|
  {
    if parents == [] then Ok(st)
    else if parents[0] !in ctx.groups then WalkParents(ctx, required, parents[1..], maxDepth, depth, st)
    else
      var next := Walk(ctx, required, ctx.groups[parents[0]], maxDepth, depth, st);
      if next.Err? then next else WalkParents(ctx, required, parents[1..], maxDepth, depth, next.value)
  }

  function WalkAll(ctx: Context, required: string, groups: seq<Group>, maxDepth: int, st: State): Result<State, ResolveError>
    decreases |groups|
  {
    if groups == [] then Ok(st)
    else
      var next := Walk(ctx, required, groups[0], maxDepth, 0, st);
      if next.Err? then next else WalkAll(ctx, required, groups[1..], maxDepth, next.value)
  }

  const START := State({}, None, None)

  function Decide(st: State): Decision {
    if st.bestDeny.Some? && (st.bestGrant.None? || st.bestDeny.value.specificity >= st.bestGrant.value.specificity) then
      Decision(false, ByGroup(DENY, st.bestDeny.value.groupKey, st.bestDeny.value.matchedClaim))
    else if st.bestGrant.Some? then
      Decision(true, ByGroup(GRANT, st.bestGrant.value.groupKey, st.bestGrant.value.matchedClaim))
    else Decision(false, Fallback)
  }

  function Resolve(ctx: Context, claim: string, maxDepth: int): Result<Decision, ResolveError> {
    if ctx.isBotOwner || ctx.isGuildOwner then Ok(Decision(true, Global))
    else
      var required := Parse(claim);
      if required.Err? then Err(BadClaim(claim))
      else
        var walked := WalkAll(ctx, required.value, Starts(ctx), maxDepth, START);
        if walked.Err? then Err(walked.error) else Ok(Decide(walked.value))
  }

  // ---- reachable groups ----

  ghost predicate IsChain(ctx: Context, chain: seq<string>) {
    && chain != []
    && IsStart(ctx, chain[0])
    && (forall i :: 0 <= i < |chain| ==> chain[i] in ctx.groups)
    && (forall i :: 0 <= i < |chain| - 1 ==> chain[i + 1] in ctx.groups[chain[i]].parents)
  }

  /** There is a line of inheritance from a starting group to the group. */
  ghost predicate Reachable(ctx: Context, key: string) {
    exists chain :: IsChain(ctx, chain) && chain[|chain| - 1] == key
  }

  ghost predicate Closed(ctx: Context, keys: set<string>) {
    forall k, p :: k in keys && k in ctx.groups && p in ctx.groups[k].parents && p in ctx.groups ==> p in keys
  }

  ghost function ReachableKeys(ctx: Context): set<string> {
    set k | k in ctx.groups && Reachable(ctx, k)
  }

  lemma {:induction false} ReachableKeysClosed(ctx: Context)
    ensures Closed(ctx, ReachableKeys(ctx))
    ensures forall k :: IsStart(ctx, k) && k in ctx.groups ==> k in ReachableKeys(ctx)
  {
    forall k, p | k in ReachableKeys(ctx) && p in ctx.groups[k].parents && p in ctx.groups
      ensures p in ReachableKeys(ctx)
    {
      var chain :| IsChain(ctx, chain) && chain[|chain| - 1] == k;
      var longer := chain + [p];
      assert IsChain(ctx, longer) && longer[|longer| - 1] == p;
    }
    forall k | IsStart(ctx, k) && k in ctx.groups ensures k in ReachableKeys(ctx) {
      assert IsChain(ctx, [k]) && [k][0] == k;
    }
  }

  /** A closed set that holds the starting groups holds every line of inheritance. */
  lemma {:induction false} ChainStaysInside(ctx: Context, chain: seq<string>, keys: set<string>)
    requires IsChain(ctx, chain) && Closed(ctx, keys)
    requires forall k :: IsStart(ctx, k) && k in ctx.groups ==> k in keys
    ensures chain[|chain| - 1] in keys
  {
    if |chain| > 1 {
      var shorter := chain[..|chain| - 1];
      assert IsChain(ctx, shorter);
      ChainStaysInside(ctx, shorter, keys);
    }
  }

  // ---- what the walk visits ----

  lemma {:induction false} GrantsKeepVisited(required: string, key: string, grants: seq<Grant>, st: State)
    requires Grants(required, key, grants, st).Ok?
    ensures Grants(required, key, grants, st).value.visited == st.visited
    decreases |grants|
  {
    if grants != [] {
      var held := Parse(grants[0].claim);
      if Covers(held.value, required) {
        var m := Match(Specificity(held.value), key, grants[0].claim);
        GrantsKeepVisited(required, key, grants[1..], OnMatch(st, grants[0].effect, m));
      } else {
        GrantsKeepVisited(required, key, grants[1..], st);
      }
    }
  }

  /** The groups added are closed under inheritance, up to what has been visited. */
  ghost predicate Grew(ctx: Context, before: set<string>, after: set<string>) {
    && before <= after
    && forall k, p :: k in after - before && k in ctx.groups && p in ctx.groups[k].parents && p in ctx.groups ==> p in after
  }

  lemma {:induction false} WalkGrows(ctx: Context, required: string, group: Group, maxDepth: int, depth: int, st: State)
    requires WellKeyed(ctx) && group.key in ctx.groups && ctx.groups[group.key] == group
    requires Walk(ctx, required, group, maxDepth, depth, st).Ok?
    ensures var after := Walk(ctx, required, group, maxDepth, depth, st).value.visited;
            Grew(ctx, st.visited, after) && group.key in after
    decreases Room(depth, maxDepth), 0, 0
  {
    if group.key !in st.visited {
      var entered := st.(visited := st.visited + {group.key});
      var own := Grants(required, group.key, group.grants, entered);
      GrantsKeepVisited(required, group.key, group.grants, entered);
      ParentsGrow(ctx, required, group.parents, maxDepth, depth + 1, own.value);
    }
  }

  lemma {:induction false} ParentsGrow(
      ctx: Context, required: string, parents: seq<string>, maxDepth: int, depth: int, st: State)
    requires WellKeyed(ctx)
    requires WalkParents(ctx, required, parents, maxDepth, depth, st).Ok?
    ensures var after := WalkParents(ctx, required, parents, maxDepth, depth, st).value.visited;
            Grew(ctx, st.visited, after) && forall i :: 0 <= i < |parents| && parents[i] in ctx.groups ==> parents[i] in after
    decreases Room(depth, maxDepth), 1, |parents|
  {
    if parents != [] {
      var rest := parents[1..];
      if parents[0] !in ctx.groups {
        ParentsGrow(ctx, required, rest, maxDepth, depth, st);
      } else {
        WalkGrows(ctx, required, ctx.groups[parents[0]], maxDepth, depth, st);
        var next := Walk(ctx, required, ctx.groups[parents[0]], maxDepth, depth, st);
        ParentsGrow(ctx, required, rest, maxDepth, depth, next.value);
      }
      assert forall i :: 0 < i < |parents| ==> parents[i] == rest[i - 1];
    }
  }

  lemma {:induction false} WalkStaysInside(
      ctx: Context, required: string, group: Group, maxDepth: int, depth: int, st: State, keys: set<string>)
    requires WellKeyed(ctx) && group.key in ctx.groups && ctx.groups[group.key] == group
    requires Walk(ctx, required, group, maxDepth, depth, st).Ok?
    requires Closed(ctx, keys) && st.visited <= keys && group.key in keys
    ensures Walk(ctx, required, group, maxDepth, depth, st).value.visited <= keys
    decreases Room(depth, maxDepth), 0, 0
  {
    if group.key !in st.visited {
      var entered := st.(visited := st.visited + {group.key});
      var own := Grants(required, group.key, group.grants, entered);
      GrantsKeepVisited(required, group.key, group.grants, entered);
      ParentsStayInside(ctx, required, group.parents, maxDepth, depth + 1, own.value, keys);
    }
  }

  lemma {:induction false} ParentsStayInside(
      ctx: Context, required: string, parents: seq<string>, maxDepth: int, depth: int, st: State, keys: set<string>)
    requires WellKeyed(ctx) && WalkParents(ctx, required, parents, maxDepth, depth, st).Ok?
    requires Closed(ctx, keys) && st.visited <= keys
    requires forall i :: 0 <= i < |parents| && parents[i] in ctx.groups ==> parents[i] in keys
    ensures WalkParents(ctx, required, parents, maxDepth, depth, st).value.visited <= keys
    decreases Room(depth, maxDepth), 1, |parents|
  {
    if parents != [] {
      var rest := parents[1..];
      assert forall i :: 0 <= i < |rest| ==> rest[i] == parents[i + 1];
      if parents[0] !in ctx.groups {
        ParentsStayInside(ctx, required, rest, maxDepth, depth, st, keys);
      } else {
        WalkStaysInside(ctx, required, ctx.groups[parents[0]], maxDepth, depth, st, keys);
        var next := Walk(ctx, required, ctx.groups[parents[0]], maxDepth, depth, st);
        ParentsStayInside(ctx, required, rest, maxDepth, depth, next.value, keys);
      }
    }
  }

  /** Groups that the context holds under their key. */
  ghost predicate Filed(ctx: Context, groups: seq<Group>) {
    forall i :: 0 <= i < |groups| ==> groups[i].key in ctx.groups && ctx.groups[groups[i].key] == groups[i]
  }

  lemma {:induction false} AllGrow(ctx: Context, required: string, groups: seq<Group>, maxDepth: int, st: State)
    requires WellKeyed(ctx) && Filed(ctx, groups) && WalkAll(ctx, required, groups, maxDepth, st).Ok?
    requires Closed(ctx, st.visited)
    ensures var after := WalkAll(ctx, required, groups, maxDepth, st).value.visited;
            st.visited <= after && Closed(ctx, after) && forall i :: 0 <= i < |groups| ==> groups[i].key in after
    decreases |groups|
  {
    if groups != [] {
      WalkGrows(ctx, required, groups[0], maxDepth, 0, st);
      var next, rest := Walk(ctx, required, groups[0], maxDepth, 0, st), groups[1..];
      assert forall i :: 0 <= i < |rest| ==> rest[i] == groups[i + 1];
      AllGrow(ctx, required, rest, maxDepth, next.value);
      assert forall i :: 0 < i < |groups| ==> groups[i] == rest[i - 1];
    }
  }

  lemma {:induction false} AllStayInside(
      ctx: Context, required: string, groups: seq<Group>, maxDepth: int, st: State, keys: set<string>)
    requires WellKeyed(ctx) && Filed(ctx, groups) && WalkAll(ctx, required, groups, maxDepth, st).Ok?
    requires Closed(ctx, keys) && st.visited <= keys && forall i :: 0 <= i < |groups| ==> groups[i].key in keys
    ensures WalkAll(ctx, required, groups, maxDepth, st).value.visited <= keys
    decreases |groups|
  {
    if groups != [] {
      WalkStaysInside(ctx, required, groups[0], maxDepth, 0, st, keys);
      var next, rest := Walk(ctx, required, groups[0], maxDepth, 0, st), groups[1..];
      assert forall i :: 0 <= i < |rest| ==> rest[i] == groups[i + 1];
      AllStayInside(ctx, required, rest, maxDepth, next.value, keys);
    }
  }

  lemma {:induction false} StartsAreFiled(ctx: Context)
    requires WellKeyed(ctx)
    ensures Filed(ctx, Starts(ctx))
    ensures forall i :: 0 <= i < |Starts(ctx)| ==> IsStart(ctx, Starts(ctx)[i].key)
    ensures forall k :: IsStart(ctx, k) && k in ctx.groups ==> exists i :: 0 <= i < |Starts(ctx)| && Starts(ctx)[i].key == k
  {
    var starts := Starts(ctx);
    forall i | 0 <= i < |starts|
      ensures starts[i].key in ctx.groups && ctx.groups[starts[i].key] == starts[i] && IsStart(ctx, starts[i].key)
    {
      StartsAre(ctx, starts[i]);
    }
    forall k | IsStart(ctx, k) && k in ctx.groups ensures exists i :: 0 <= i < |starts| && starts[i].key == k {
      StartsAre(ctx, ctx.groups[k]);
      assert ctx.groups[k] in starts;
    }
  }

  /** The walk visits exactly the reachable groups, whatever cycles inheritance has. */
  lemma {:induction false} WalkVisitsReachable(ctx: Context, required: string, maxDepth: int)
    requires WellKeyed(ctx) && WalkAll(ctx, required, Starts(ctx), maxDepth, START).Ok?
    ensures WalkAll(ctx, required, Starts(ctx), maxDepth, START).value.visited == ReachableKeys(ctx)
  {
    var visited := WalkAll(ctx, required, Starts(ctx), maxDepth, START).value.visited;
    StartsAreFiled(ctx);
    ReachableKeysClosed(ctx);
    AllGrow(ctx, required, Starts(ctx), maxDepth, START);
    AllStayInside(ctx, required, Starts(ctx), maxDepth, START, ReachableKeys(ctx));
    forall k | k in ReachableKeys(ctx) ensures k in visited {
      var chain :| IsChain(ctx, chain) && chain[|chain| - 1] == k;
      ChainStaysInside(ctx, chain, visited);
    }
  }

  // ---- what the walk keeps ----

  /** The grant at `i` covers the required claim, with the given effect, as match `m`. */
  predicate MatchAt(required: string, key: string, grants: seq<Grant>, i: int, effect: Effect, m: Match)
    requires 0 <= i < |grants|
  {
    && grants[i].effect == effect
    && Parse(grants[i].claim).Ok?
    && Covers(Parse(grants[i].claim).value, required)
    && m == Match(Specificity(Parse(grants[i].claim).value), key, grants[i].claim)
  }

  ghost predicate FromGrants(required: string, key: string, grants: seq<Grant>, effect: Effect, m: Match) {
    exists i :: 0 <= i < |grants| && MatchAt(required, key, grants, i, effect, m)
  }

  /** A match that some group among `keys` gives. */
  ghost predicate Candidate(ctx: Context, required: string, keys: set<string>, effect: Effect, m: Match) {
    && m.groupKey in keys && m.groupKey in ctx.groups
    && FromGrants(required, m.groupKey, ctx.groups[m.groupKey].grants, effect, m)
  }

  function BestOf(st: State, effect: Effect): Option<Match> {
    if effect == GRANT then st.bestGrant else st.bestDeny
  }

  predicate AtLeast(best: Option<Match>, m: Match) {
    best.Some? && m.specificity <= best.value.specificity
  }

  ghost predicate ClaimsParse(grants: seq<Grant>) {
    forall i :: 0 <= i < |grants| ==> Parse(grants[i].claim).Ok?
  }

  /** The most specific match of each effect over the visited groups, all of them valid. */
  ghost predicate Tracks(ctx: Context, required: string, st: State) {
    && (forall k :: k in st.visited && k in ctx.groups ==> ClaimsParse(ctx.groups[k].grants))
    && (forall effect :: BestOf(st, effect).Some? ==> Candidate(ctx, required, st.visited, effect, BestOf(st, effect).value))
    && (forall effect, m :: Candidate(ctx, required, st.visited, effect, m) ==> AtLeast(BestOf(st, effect), m))
  }

  lemma {:induction false} FromGrantsCons(required: string, key: string, grants: seq<Grant>, effect: Effect, m: Match)
    requires grants != []
    ensures FromGrants(required, key, grants, effect, m)
       <==> MatchAt(required, key, grants, 0, effect, m) || FromGrants(required, key, grants[1..], effect, m)
  {
    var rest := grants[1..];
    if FromGrants(required, key, grants, effect, m) && !MatchAt(required, key, grants, 0, effect, m) {
      var i :| 0 <= i < |grants| && MatchAt(required, key, grants, i, effect, m);
      assert MatchAt(required, key, rest, i - 1, effect, m);
    }
    if FromGrants(required, key, rest, effect, m) {
      var i :| 0 <= i < |rest| && MatchAt(required, key, rest, i, effect, m);
      assert MatchAt(required, key, grants, i + 1, effect, m);
    }
  }

  /** Going through a group's grants takes in every match and keeps the best, of equally
      specific ones the earlier. */
  lemma {:induction false} GrantsBest(required: string, key: string, grants: seq<Grant>, st: State, effect: Effect)
    requires Grants(required, key, grants, st).Ok?
    ensures var before, after := BestOf(st, effect), BestOf(Grants(required, key, grants, st).value, effect);
            && (after == before || (after.Some? && FromGrants(required, key, grants, effect, after.value)))
            && (before.Some? ==> AtLeast(after, before.value))
            && (before.Some? && after != before ==> after.value.specificity > before.value.specificity)
            && forall m :: FromGrants(required, key, grants, effect, m) ==> AtLeast(after, m)
    decreases |grants|
  {
    var after := BestOf(Grants(required, key, grants, st).value, effect);
    if grants != [] {
      var held := Parse(grants[0].claim);
      var m := Match(Specificity(held.value), key, grants[0].claim);
      var next := if Covers(held.value, required) then OnMatch(st, grants[0].effect, m) else st;
      GrantsBest(required, key, grants[1..], next, effect);
      if after.Some? {
        FromGrantsCons(required, key, grants, effect, after.value);
      }
      forall m | FromGrants(required, key, grants, effect, m) ensures AtLeast(after, m) {
        FromGrantsCons(required, key, grants, effect, m);
      }
    }
  }

  lemma {:induction false} GrantsParse(required: string, key: string, grants: seq<Grant>, st: State)
    requires Grants(required, key, grants, st).Ok?
    ensures ClaimsParse(grants)
    decreases |grants|
  {
    if grants != [] {
      var held := Parse(grants[0].claim);
      var m := Match(Specificity(held.value), key, grants[0].claim);
      GrantsParse(required, key, grants[1..], if Covers(held.value, required) then OnMatch(st, grants[0].effect, m) else st);
      assert forall i :: 0 < i < |grants| ==> grants[i] == grants[1..][i - 1];
    }
  }

  lemma {:induction false} GrantsTrack(ctx: Context, required: string, group: Group, st: State)
    requires Tracks(ctx, required, st) && group.key in ctx.groups && ctx.groups[group.key] == group
    requires Grants(required, group.key, group.grants, st.(visited := st.visited + {group.key})).Ok?
    ensures Tracks(ctx, required, Grants(required, group.key, group.grants, st.(visited := st.visited + {group.key})).value)
  {
    var entered := st.(visited := st.visited + {group.key});
    var after := Grants(required, group.key, group.grants, entered).value;
    GrantsKeepVisited(required, group.key, group.grants, entered);
    GrantsParse(required, group.key, group.grants, entered);
    GrantsBest(required, group.key, group.grants, entered, GRANT);
    GrantsBest(required, group.key, group.grants, entered, DENY);
    forall effect ensures BestOf(after, effect).Some? ==> Candidate(ctx, required, after.visited, effect, BestOf(after, effect).value) {
      assert BestOf(st, effect) == BestOf(entered, effect);
      if BestOf(after, effect) != BestOf(st, effect) {
        FromGrantsKey(required, group.key, group.grants, effect, BestOf(after, effect).value);
      }
    }
    forall effect, m | Candidate(ctx, required, after.visited, effect, m) ensures AtLeast(BestOf(after, effect), m) {
      assert BestOf(st, effect) == BestOf(entered, effect);
      if m.groupKey != group.key {
        assert Candidate(ctx, required, st.visited, effect, m);
      }
    }
  }

  lemma {:induction false} FromGrantsKey(required: string, key: string, grants: seq<Grant>, effect: Effect, m: Match)
    requires FromGrants(required, key, grants, effect, m)
    ensures m.groupKey == key
  {
  }

  lemma {:induction false} WalkTracks(ctx: Context, required: string, group: Group, maxDepth: int, depth: int, st: State)
    requires WellKeyed(ctx) && group.key in ctx.groups && ctx.groups[group.key] == group
    requires Tracks(ctx, required, st) && Walk(ctx, required, group, maxDepth, depth, st).Ok?
    ensures Tracks(ctx, required, Walk(ctx, required, group, maxDepth, depth, st).value)
    decreases Room(depth, maxDepth), 0, 0
  {
    if group.key !in st.visited {
      GrantsTrack(ctx, required, group, st);
      var own := Grants(required, group.key, group.grants, st.(visited := st.visited + {group.key}));
      ParentsTrack(ctx, required, group.parents, maxDepth, depth + 1, own.value);
    }
  }

  lemma {:induction false} ParentsTrack(
      ctx: Context, required: string, parents: seq<string>, maxDepth: int, depth: int, st: State)
    requires WellKeyed(ctx) && Tracks(ctx, required, st) && WalkParents(ctx, required, parents, maxDepth, depth, st).Ok?
    ensures Tracks(ctx, required, WalkParents(ctx, required, parents, maxDepth, depth, st).value)
    decreases Room(depth, maxDepth), 1, |parents|
  {
    if parents != [] {
      if parents[0] !in ctx.groups {
        ParentsTrack(ctx, required, parents[1..], maxDepth, depth, st);
      } else {
        WalkTracks(ctx, required, ctx.groups[parents[0]], maxDepth, depth, st);
        var next := Walk(ctx, required, ctx.groups[parents[0]], maxDepth, depth, st);
        ParentsTrack(ctx, required, parents[1..], maxDepth, depth, next.value);
      }
    }
  }

  lemma {:induction false} AllTrack(ctx: Context, required: string, groups: seq<Group>, maxDepth: int, st: State)
    requires WellKeyed(ctx) && Filed(ctx, groups) && WalkAll(ctx, required, groups, maxDepth, st).Ok?
    requires Tracks(ctx, required, st)
    ensures Tracks(ctx, required, WalkAll(ctx, required, groups, maxDepth, st).value)
    decreases |groups|
  {
    if groups != [] {
      WalkTracks(ctx, required, groups[0], maxDepth, 0, st);
      var next, rest := Walk(ctx, required, groups[0], maxDepth, 0, st), groups[1..];
      assert forall i :: 0 <= i < |rest| ==> rest[i] == groups[i + 1];
      AllTrack(ctx, required, rest, maxDepth, next.value);
    }
  }

  // ---- the decision ----

  ghost predicate Owner(ctx: Context) {
    ctx.isBotOwner || ctx.isGuildOwner
  }

  /** A covering grant among the reachable groups, more specific than every covering
      denial there. */
  ghost predicate Entitled(ctx: Context, required: string) {
    exists g :: Candidate(ctx, required, ReachableKeys(ctx), GRANT, g)
      && forall d :: Candidate(ctx, required, ReachableKeys(ctx), DENY, d) ==> d.specificity < g.specificity
  }

  /** Whenever `Resolve` returns, access is allowed to an owner, and otherwise exactly to
      those entitled by their groups; an owner, and nobody else, is given the global reason,
      and any other reason names one of the reachable groups, with a match nothing of its
      effect exceeds. */
  lemma {:induction false} ResolveDecides(ctx: Context, claim: string, maxDepth: int)
    requires WellKeyed(ctx) && Resolve(ctx, claim, maxDepth).Ok?
    ensures var d := Resolve(ctx, claim, maxDepth).value;
            && (d.allowed <==> Owner(ctx) || (Parse(claim).Ok? && Entitled(ctx, Parse(claim).value)))
            && (d.reason == Global <==> Owner(ctx))
            && (!Owner(ctx) ==>
                  && Parse(claim).Ok?
                  && (forall k :: k in ReachableKeys(ctx) ==> ClaimsParse(ctx.groups[k].grants))
                  && ReasonHolds(ctx, Parse(claim).value, d))
  {
    if !Owner(ctx) {
      GroupsDecide(ctx, claim, maxDepth);
    }
  }

  lemma {:induction false} GroupsDecide(ctx: Context, claim: string, maxDepth: int)
    requires WellKeyed(ctx) && !Owner(ctx) && Resolve(ctx, claim, maxDepth).Ok?
    ensures Parse(claim).Ok?
    ensures forall k :: k in ReachableKeys(ctx) ==> ClaimsParse(ctx.groups[k].grants)
    ensures Resolve(ctx, claim, maxDepth).value.allowed <==> Entitled(ctx, Parse(claim).value)
    ensures ReasonHolds(ctx, Parse(claim).value, Resolve(ctx, claim, maxDepth).value)
  {
    var required := Parse(claim).value;
    var st := WalkAll(ctx, required, Starts(ctx), maxDepth, START).value;
    StartsAreFiled(ctx);
    WalkVisitsReachable(ctx, required, maxDepth);
    AllTrack(ctx, required, Starts(ctx), maxDepth, START);
    DecisionIsEntitlement(ctx, required, st);
  }

  ghost predicate ReasonHolds(ctx: Context, required: string, d: Decision) {
    match d.reason
    case Global => false
    case Fallback => !d.allowed && forall e, m :: !Candidate(ctx, required, ReachableKeys(ctx), e, m)
    case ByGroup(effect, key, claim) =>
      && d.allowed == (effect == GRANT)
      && exists s :: Candidate(ctx, required, ReachableKeys(ctx), effect, Match(s, key, claim))
           && forall m :: Candidate(ctx, required, ReachableKeys(ctx), effect, m) ==> m.specificity <= s
  }

  lemma {:induction false} DecisionHasReason(ctx: Context, required: string, st: State)
    requires Tracks(ctx, required, st) && st.visited == ReachableKeys(ctx)
    ensures ReasonHolds(ctx, required, Decide(st))
  {
    var keys, g, d := ReachableKeys(ctx), BestOf(st, GRANT), BestOf(st, DENY);
    if g.Some? {
      assert Candidate(ctx, required, keys, GRANT, g.value);
      assert g.value == Match(g.value.specificity, g.value.groupKey, g.value.matchedClaim);
    }
    if d.Some? {
      assert Candidate(ctx, required, keys, DENY, d.value);
      assert d.value == Match(d.value.specificity, d.value.groupKey, d.value.matchedClaim);
    }
  }

  lemma {:induction false} AllowedIsEntitled(ctx: Context, required: string, st: State)
    requires Tracks(ctx, required, st) && st.visited == ReachableKeys(ctx) && Decide(st).allowed
    ensures Entitled(ctx, required)
  {
    var keys, g, d := ReachableKeys(ctx), BestOf(st, GRANT), BestOf(st, DENY);
    assert Candidate(ctx, required, keys, GRANT, g.value);
    forall x | Candidate(ctx, required, keys, DENY, x) ensures x.specificity < g.value.specificity {
      assert AtLeast(d, x);
    }
  }

  lemma {:induction false} BestExceeds(ctx: Context, required: string, st: State, effect: Effect, m: Match)
    requires Tracks(ctx, required, st) && Candidate(ctx, required, st.visited, effect, m)
    ensures AtLeast(BestOf(st, effect), m)
  {
  }

  lemma {:induction false} BestIsCandidate(ctx: Context, required: string, st: State, effect: Effect)
    requires Tracks(ctx, required, st)
    ensures BestOf(st, effect).Some? ==> Candidate(ctx, required, st.visited, effect, BestOf(st, effect).value)
  {
  }

  lemma {:induction false} EntitledIsAllowed(ctx: Context, required: string, st: State)
    requires Tracks(ctx, required, st) && st.visited == ReachableKeys(ctx) && Entitled(ctx, required)
    ensures Decide(st).allowed
  {
    var m :| Candidate(ctx, required, st.visited, GRANT, m)
      && forall x :: Candidate(ctx, required, st.visited, DENY, x) ==> x.specificity < m.specificity;
    BestExceeds(ctx, required, st, GRANT, m);
    BestIsCandidate(ctx, required, st, DENY);
  }

  lemma {:induction false} DecisionIsEntitlement(ctx: Context, required: string, st: State)
    requires Tracks(ctx, required, st) && st.visited == ReachableKeys(ctx)
    ensures Decide(st).allowed <==> Entitled(ctx, required)
    ensures ReasonHolds(ctx, required, Decide(st))
  {
    DecisionHasReason(ctx, required, st);
    if Decide(st).allowed {
      AllowedIsEntitled(ctx, required, st);
    }
    if Entitled(ctx, required) {
      EntitledIsAllowed(ctx, required, st);
    }
  }

  /** A grant and a denial that tie are of the very same claim, so "deny wins on a tie"
      decides nothing else. */
  lemma {:induction false} TieIsSameClaim(ctx: Context, required: string, keys: set<string>, g: Match, d: Match)
    requires Candidate(ctx, required, keys, GRANT, g) && Candidate(ctx, required, keys, DENY, d)
    requires g.specificity == d.specificity
    ensures Parse(g.matchedClaim) == Parse(d.matchedClaim)
  {
    var a, b := Parse(g.matchedClaim).value, Parse(d.matchedClaim).value;
    if a != b {
      CoversNeverTie(a, b, required);
    }
  }

  // ---- when the walk returns ----

  lemma {:induction false} GrantsReturn(required: string, key: string, grants: seq<Grant>, st: State)
    requires ClaimsParse(grants)
    ensures Grants(required, key, grants, st).Ok?
    decreases |grants|
  {
    if grants != [] {
      var held := Parse(grants[0].claim);
      var m := Match(Specificity(held.value), key, grants[0].claim);
      GrantsReturn(required, key, grants[1..], if Covers(held.value, required) then OnMatch(st, grants[0].effect, m) else st);
    }
  }

  /** A closed set of groups with valid claims, no more than the depth limit. */
  ghost predicate Fits(ctx: Context, keys: set<string>, maxDepth: int) {
    && Closed(ctx, keys) && |keys| <= maxDepth
    && forall k :: k in keys && k in ctx.groups ==> ClaimsParse(ctx.groups[k].grants)
  }

  lemma {:induction false} WalkReturns(
      ctx: Context, required: string, group: Group, maxDepth: int, depth: nat, st: State, keys: set<string>)
    requires WellKeyed(ctx) && group.key in ctx.groups && ctx.groups[group.key] == group
    requires Fits(ctx, keys, maxDepth) && st.visited <= keys && group.key in keys && depth <= |st.visited|
    ensures Walk(ctx, required, group, maxDepth, depth, st).Ok?
    decreases Room(depth, maxDepth), 0, 0
  {
    SubsetSize(st.visited, keys);
    if group.key !in st.visited {
      var entered := st.(visited := st.visited + {group.key});
      GrantsReturn(required, group.key, group.grants, entered);
      GrantsKeepVisited(required, group.key, group.grants, entered);
      var own := Grants(required, group.key, group.grants, entered);
      ParentsReturn(ctx, required, group.parents, maxDepth, depth + 1, own.value, keys);
    }
  }

  lemma {:induction false} ParentsReturn(
      ctx: Context, required: string, parents: seq<string>, maxDepth: int, depth: nat, st: State, keys: set<string>)
    requires WellKeyed(ctx) && Fits(ctx, keys, maxDepth) && st.visited <= keys && depth <= |st.visited|
    requires forall i :: 0 <= i < |parents| && parents[i] in ctx.groups ==> parents[i] in keys
    ensures WalkParents(ctx, required, parents, maxDepth, depth, st).Ok?
    decreases Room(depth, maxDepth), 1, |parents|
  {
    if parents != [] {
      var rest := parents[1..];
      assert forall i :: 0 <= i < |rest| ==> rest[i] == parents[i + 1];
      if parents[0] !in ctx.groups {
        ParentsReturn(ctx, required, rest, maxDepth, depth, st, keys);
      } else {
        var group := ctx.groups[parents[0]];
        WalkReturns(ctx, required, group, maxDepth, depth, st, keys);
        WalkGrows(ctx, required, group, maxDepth, depth, st);
        WalkStaysInside(ctx, required, group, maxDepth, depth, st, keys);
        var next := Walk(ctx, required, group, maxDepth, depth, st);
        SubsetSize(st.visited, next.value.visited);
        ParentsReturn(ctx, required, rest, maxDepth, depth, next.value, keys);
      }
    }
  }

  lemma {:induction false} AllReturn(
      ctx: Context, required: string, groups: seq<Group>, maxDepth: int, st: State, keys: set<string>)
    requires WellKeyed(ctx) && Filed(ctx, groups) && Fits(ctx, keys, maxDepth) && st.visited <= keys
    requires forall i :: 0 <= i < |groups| ==> groups[i].key in keys
    ensures WalkAll(ctx, required, groups, maxDepth, st).Ok?
    decreases |groups|
  {
    if groups != [] {
      WalkReturns(ctx, required, groups[0], maxDepth, 0, st, keys);
      WalkStaysInside(ctx, required, groups[0], maxDepth, 0, st, keys);
      var next, rest := Walk(ctx, required, groups[0], maxDepth, 0, st), groups[1..];
      assert forall i :: 0 <= i < |rest| ==> rest[i] == groups[i + 1];
      AllReturn(ctx, required, rest, maxDepth, next.value, keys);
    }
  }

  /** Valid claims, and no more reachable groups than the depth limit. */
  ghost predicate InLimits(ctx: Context, claim: string, maxDepth: int) {
    && WellKeyed(ctx) && Parse(claim).Ok? && |ReachableKeys(ctx)| <= maxDepth
    && forall k :: k in ReachableKeys(ctx) ==> ClaimsParse(ctx.groups[k].grants)
  }

  /** An owner always gets an answer, whatever the claim, the groups and the depth limit.
      Anyone does with valid claims and no more reachable groups than the limit: then the
      walk never reports too deep an inheritance, whatever cycles there are. */
  lemma {:induction false} ResolveReturns(ctx: Context, claim: string, maxDepth: int)
    requires Owner(ctx) || InLimits(ctx, claim, maxDepth)
    ensures Resolve(ctx, claim, maxDepth).Ok?
  {
    if !Owner(ctx) {
      StartsAreFiled(ctx);
      ReachableKeysClosed(ctx);
      AllReturn(ctx, Parse(claim).value, Starts(ctx), maxDepth, START, ReachableKeys(ctx));
    }
  }

  /** A line of groups without grants, each with the next as its parent, the last with
      itself; only the first is a default group. */
  function LineContext(line: seq<string>): Context
    requires line != [] && Distinct(line)
  {
    var parents := line[1..] + [line[|line| - 1]];
    Context(false, false, [line[0]], [], map[], map i | 0 <= i < |line| :: line[i] := Group(line[i], 0, [], [parents[i]]))
  }

  lemma {:induction false} EnterLine(line: seq<string>, required: string, i: nat, st: State)
    requires Distinct(line) && i < |line| && st.visited == Elements(line[..i])
    ensures var ctx, last := LineContext(line), |line| - 1;
      var parent := if i == last then line[i] else line[i + 1];
      Walk(ctx, required, ctx.groups[line[i]], last, i, st)
        == WalkParents(ctx, required, [parent], last, i + 1, st.(visited := Elements(line[..i + 1])))
  {
    var ctx := LineContext(line);
    var group, entered := ctx.groups[line[i]], st.(visited := st.visited + {line[i]});
    NextIsNew(line, i);
    ElementsNext(line, i);
    assert Grants(required, line[i], group.grants, entered) == Ok(entered);
  }

  lemma {:induction false} OneParent(ctx: Context, required: string, parent: string, maxDepth: int, depth: int, st: State)
    requires parent in ctx.groups && Walk(ctx, required, ctx.groups[parent], maxDepth, depth, st).Err?
    ensures WalkParents(ctx, required, [parent], maxDepth, depth, st) == Walk(ctx, required, ctx.groups[parent], maxDepth, depth, st)
  {
  }

  lemma {:induction false} WalkLine(line: seq<string>, required: string, i: nat, st: State)
    requires Distinct(line) && i < |line| && st.visited == Elements(line[..i])
    ensures var ctx := LineContext(line);
      Walk(ctx, required, ctx.groups[line[i]], |line| - 1, i, st) == Err(TooDeep(line[|line| - 1]))
    decreases |line| - i
  {
    var ctx, last, entered := LineContext(line), |line| - 1, st.(visited := Elements(line[..i + 1]));
    EnterLine(line, required, i, st);
    if i < last {
      WalkLine(line, required, i + 1, entered);
      OneParent(ctx, required, line[i + 1], last, i + 1, entered);
    } else {
      OneParent(ctx, required, line[i], last, i + 1, entered);
    }
  }

  /** Whatever the limit, one group more is enough for the error: a line of that many, the
      last of which is its own parent. */
  lemma {:induction false} LimitIsTight(line: seq<string>, claim: string)
    requires Parse(claim).Ok? && line != [] && Distinct(line)
    ensures Resolve(LineContext(line), claim, |line| - 1) == Err(TooDeep(line[|line| - 1]))
    ensures LineContext(line).groups.Keys == Elements(line)
  {
    var ctx, key := LineContext(line), line[0];
    var group := ctx.groups[key];
    assert AddAll([], [key]) == [key] by { assert [key][1..] == []; }
    assert StartKeys(ctx) == [key];
    assert Existing(ctx, [key]) == [group] by { assert [key][1..] == []; }
    assert ByPriority([group]) == [group] by { assert [group][..0] == []; }
    WalkLine(line, Parse(claim).value, 0, START);
  }

  // ---- what an error means ----

  /** An invalid claim of a reachable group, or a line of inheritance beyond the limit. */
  ghost predicate Justified(ctx: Context, maxDepth: int, e: ResolveError) {
    match e
    case BadClaim(raw) =>
      exists k, i :: k in ReachableKeys(ctx) && 0 <= i < |ctx.groups[k].grants|
        && ctx.groups[k].grants[i].claim == raw && Parse(raw).Err?
    case TooDeep(key) =>
      exists chain :: IsChain(ctx, chain) && |chain| > maxDepth + 1 && chain[|chain| - 1] == key
  }

  lemma {:induction false} GrantsFail(required: string, key: string, grants: seq<Grant>, st: State)
    requires Grants(required, key, grants, st).Err?
    ensures var e := Grants(required, key, grants, st).error;
            e.BadClaim? && Parse(e.raw).Err? && exists i :: 0 <= i < |grants| && grants[i].claim == e.raw
    decreases |grants|
  {
    var held := Parse(grants[0].claim);
    if held.Ok? {
      var m := Match(Specificity(held.value), key, grants[0].claim);
      var next := if Covers(held.value, required) then OnMatch(st, grants[0].effect, m) else st;
      GrantsFail(required, key, grants[1..], next);
      var i :| 0 <= i < |grants[1..]| && grants[1..][i].claim == Grants(required, key, grants, st).error.raw;
      assert grants[i + 1].claim == grants[1..][i].claim;
    }
  }

  lemma {:induction false} WalkFails(
      ctx: Context, required: string, group: Group, maxDepth: int, depth: int, st: State, chain: seq<string>)
    requires WellKeyed(ctx) && Walk(ctx, required, group, maxDepth, depth, st).Err?
    requires group.key in ctx.groups && ctx.groups[group.key] == group
    requires IsChain(ctx, chain) && chain[|chain| - 1] == group.key && |chain| == depth + 1
    ensures Justified(ctx, maxDepth, Walk(ctx, required, group, maxDepth, depth, st).error)
    decreases Room(depth, maxDepth), 0, 0
  {
    if depth <= maxDepth {
      var entered := st.(visited := st.visited + {group.key});
      var own := Grants(required, group.key, group.grants, entered);
      if own.Err? {
        GrantsFail(required, group.key, group.grants, entered);
        assert group.key in ReachableKeys(ctx);
      } else {
        ParentsFail(ctx, required, group.parents, maxDepth, depth + 1, own.value, chain);
      }
    }
  }

  lemma {:induction false} ParentsFail(
      ctx: Context, required: string, parents: seq<string>, maxDepth: int, depth: int, st: State, chain: seq<string>)
    requires WellKeyed(ctx) && WalkParents(ctx, required, parents, maxDepth, depth, st).Err?
    requires IsChain(ctx, chain) && |chain| == depth
    requires forall i :: 0 <= i < |parents| ==> parents[i] in ctx.groups[chain[|chain| - 1]].parents
    ensures Justified(ctx, maxDepth, WalkParents(ctx, required, parents, maxDepth, depth, st).error)
    decreases Room(depth, maxDepth), 1, |parents|
  {
    var rest := parents[1..];
    assert forall i :: 0 <= i < |rest| ==> rest[i] == parents[i + 1];
    if parents[0] !in ctx.groups {
      ParentsFail(ctx, required, rest, maxDepth, depth, st, chain);
    } else {
      var next := Walk(ctx, required, ctx.groups[parents[0]], maxDepth, depth, st);
      if next.Err? {
        WalkFails(ctx, required, ctx.groups[parents[0]], maxDepth, depth, st, chain + [parents[0]]);
      } else {
        ParentsFail(ctx, required, rest, maxDepth, depth, next.value, chain);
      }
    }
  }

  lemma {:induction false} AllFail(ctx: Context, required: string, groups: seq<Group>, maxDepth: int, st: State)
    requires WellKeyed(ctx) && Filed(ctx, groups) && WalkAll(ctx, required, groups, maxDepth, st).Err?
    requires forall i :: 0 <= i < |groups| ==> IsStart(ctx, groups[i].key)
    ensures Justified(ctx, maxDepth, WalkAll(ctx, required, groups, maxDepth, st).error)
    decreases |groups|
  {
    var next, rest := Walk(ctx, required, groups[0], maxDepth, 0, st), groups[1..];
    assert forall i :: 0 <= i < |rest| ==> rest[i] == groups[i + 1];
    if next.Err? {
      WalkFails(ctx, required, groups[0], maxDepth, 0, st, [groups[0].key]);
    } else {
      AllFail(ctx, required, rest, maxDepth, next.value);
    }
  }

  lemma {:induction false} ErrorsAreJustified(ctx: Context, claim: string, maxDepth: int)
    requires WellKeyed(ctx) && Resolve(ctx, claim, maxDepth).Err?
    ensures !Owner(ctx)
    ensures var e := Resolve(ctx, claim, maxDepth).error;
            if Parse(claim).Err? then e == BadClaim(claim) else Justified(ctx, maxDepth, e)
  {
    if Parse(claim).Ok? {
      StartsAreFiled(ctx);
      AllFail(ctx, Parse(claim).value, Starts(ctx), maxDepth, START);
    }
  }

  // ---- the resolver ----

  /** The variables one call of `resolve` shares over its recursive walk. */
  class Walker {
    var visited: set<string>
    var bestGrant: Option<Match>
    var bestDeny: Option<Match>

    constructor ()
      ensures Shared() == START
    {
      visited, bestGrant, bestDeny := {}, None, None;
    }

    function Shared(): State
      reads this
    {
      State(visited, bestGrant, bestDeny)
    }

    method Record(effect: Effect, m: Match)
      modifies this
      ensures Shared() == OnMatch(old(Shared()), effect, m)
    {
      if effect == GRANT {
        if bestGrant.None? || m.specificity > bestGrant.value.specificity {
          bestGrant := Some(m);
        }
      } else {
        if bestDeny.None? || m.specificity > bestDeny.value.specificity {
          bestDeny := Some(m);
        }
      }
    }

    method MatchGrants(required: string, group: Group) returns (failed: Option<ResolveError>)
      modifies this
      ensures match failed
              case None => Grants(required, group.key, group.grants, old(Shared())) == Ok(Shared())
              case Some(e) => Grants(required, group.key, group.grants, old(Shared())) == Err(e)
    {
      for i := 0 to |group.grants|
        invariant Grants(required, group.key, group.grants, old(Shared()))
               == Grants(required, group.key, group.grants[i..], Shared())
      {
        var grant := group.grants[i];
        assert group.grants[i..][1..] == group.grants[i + 1..];
        var held := Parse(grant.claim);
        if held.Err? {
          return Some(BadClaim(grant.claim));
        }
        if Covers(held.value, required) {
          Record(grant.effect, Match(Specificity(held.value), group.key, grant.claim));
        }
      }
      return None;
    }

    method WalkGroup(ctx: Context, required: string, group: Group, maxDepth: int, depth: int)
      returns (failed: Option<ResolveError>)
      modifies this
      ensures match failed
              case None => Walk(ctx, required, group, maxDepth, depth, old(Shared())) == Ok(Shared())
              case Some(e) => Walk(ctx, required, group, maxDepth, depth, old(Shared())) == Err(e)
      decreases Room(depth, maxDepth)
    {
      if depth > maxDepth {
        return Some(TooDeep(group.key));
      }
      if group.key in visited {
        return None;
      }
      visited := visited + {group.key};
      failed := MatchGrants(required, group);
      if failed.Some? {
        return;
      }
      ghost var own := Shared();
      for i := 0 to |group.parents|
        invariant WalkParents(ctx, required, group.parents, maxDepth, depth + 1, own)
               == WalkParents(ctx, required, group.parents[i..], maxDepth, depth + 1, Shared())
      {
        assert group.parents[i..][1..] == group.parents[i + 1..];
        if group.parents[i] in ctx.groups {
          failed := WalkGroup(ctx, required, ctx.groups[group.parents[i]], maxDepth, depth + 1);
          if failed.Some? {
            return;
          }
        }
      }
      return None;
    }
  }

  /** The keys of the default groups and of the groups of the member's roles, once each. */
  method ResolveGroupKeys(ctx: Context) returns (keys: seq<string>)
    ensures keys == StartKeys(ctx)
    ensures Distinct(keys) && forall k :: k in keys <==> IsStart(ctx, k)
  {
    keys := [];
    for i := 0 to |ctx.defaultGroupKeys|
      invariant AddAll([], ctx.defaultGroupKeys) == AddAll(keys, ctx.defaultGroupKeys[i..])
    {
      keys := if ctx.defaultGroupKeys[i] in keys then keys else keys + [ctx.defaultGroupKeys[i]];
      assert ctx.defaultGroupKeys[i..][1..] == ctx.defaultGroupKeys[i + 1..];
    }
    for i := 0 to |ctx.memberRoleIds|
      invariant StartKeys(ctx) == AddAll(keys, RoleGroups(ctx, ctx.memberRoleIds[i..]))
    {
      var roleId := ctx.memberRoleIds[i];
      var groups := if roleId in ctx.roleToGroups then ctx.roleToGroups[roleId] else [];
      assert ctx.memberRoleIds[i..][1..] == ctx.memberRoleIds[i + 1..];
      ghost var rest := RoleGroups(ctx, ctx.memberRoleIds[i + 1..]);
      for j := 0 to |groups|
        invariant StartKeys(ctx) == AddAll(keys, groups[j..] + rest)
      {
        AppendHead(groups[j..], rest);
        assert groups[j..][1..] == groups[j + 1..];
        keys := if groups[j] in keys then keys else keys + [groups[j]];
      }
      assert groups[|groups|..] + rest == rest;
    }
    StartKeysAreStarts(ctx);
  }

  method ResolveClaim(ctx: Context, claim: string, maxDepth: int) returns (r: Result<Decision, ResolveError>)
    ensures r == Resolve(ctx, claim, maxDepth)
    ensures Owner(ctx) ==> r == Ok(Decision(true, Global))
  {
    if ctx.isBotOwner || ctx.isGuildOwner {
      return Ok(Decision(true, Global));
    }
    var required := Parse(claim);
    if required.Err? {
      return Err(BadClaim(claim));
    }
    var keys := ResolveGroupKeys(ctx);
    var groups := ByPriority(Existing(ctx, keys));
    var walker := new Walker();
    for i := 0 to |groups|
      invariant WalkAll(ctx, required.value, groups, maxDepth, START)
             == WalkAll(ctx, required.value, groups[i..], maxDepth, walker.Shared())
    {
      assert groups[i..][1..] == groups[i + 1..];
      var failed := walker.WalkGroup(ctx, required.value, groups[i], maxDepth, 0);
      if failed.Some? {
        return Err(failed.value);
      }
    }
    var grant, deny := walker.bestGrant, walker.bestDeny;
    if deny.Some? && (grant.None? || deny.value.specificity >= grant.value.specificity) {
      return Ok(Decision(false, ByGroup(DENY, deny.value.groupKey, deny.value.matchedClaim)));
    }
    if grant.Some? {
      return Ok(Decision(true, ByGroup(GRANT, grant.value.groupKey, grant.value.matchedClaim)));
    }
    return Ok(Decision(false, Fallback));
  }
}
