/**
 The in-memory cache store: a map from keys to nodes of a doubly linked list, with hits
 moved to the head and the tail evicted when there are too many entries. The nodes are on
 the heap and the links are changed in place; every method acts on the list of slots, read
 from head to tail, exactly as the plain recency list does.
 */
module LruStore {
  import opened Prelude
  import opened RecencyList

  class LruNode {
    const key: string
    var entry: CacheEntry
    var prev: LruNode?
    var next: LruNode?

    constructor (key: string, entry: CacheEntry)
      ensures this.key == key && this.entry == entry && prev == null && next == null
    {
      this.key, this.entry, prev, next := key, entry, null, null;
    }
  }

  /** Distinctness, stated so that the verifier uses it only where asked to. */
  ghost predicate Apart(nodes: seq<LruNode>, i: int, j: int)
    requires 0 <= i < |nodes| && 0 <= j < |nodes|
  {
    nodes[i] != nodes[j]
  }

  ghost predicate AllApart(nodes: seq<LruNode>) {
    forall i, j {:trigger Apart(nodes, i, j)} :: 0 <= i < j < |nodes| ==> Apart(nodes, i, j)
  }

  lemma {:induction false} ApartIsDistinct(nodes: seq<LruNode>)
    ensures AllApart(nodes) <==> Distinct(nodes)
  {
    if AllApart(nodes) {
      forall i, j | 0 <= i < j < |nodes| ensures nodes[i] != nodes[j] {
        assert Apart(nodes, i, j);
      }
    }
  }

  lemma {:induction false} ApartFrom(nodes: seq<LruNode>, k: int)
    requires AllApart(nodes) && 0 <= k < |nodes|
    ensures forall j :: 0 <= j < |nodes| && j != k ==> nodes[j] != nodes[k]
  {
    forall j | 0 <= j < |nodes| && j != k ensures nodes[j] != nodes[k] {
      assert if j < k then Apart(nodes, j, k) else Apart(nodes, k, j);
    }
  }

  lemma {:induction false} ApartCut(nodes: seq<LruNode>, k: nat, rest: seq<LruNode>)
    requires AllApart(nodes) && Cut(nodes, k, rest)
    ensures AllApart(rest) && nodes[k] !in rest
  {
    ApartFrom(nodes, k);
    forall i, j | 0 <= i < j < |rest| ensures Apart(rest, i, j) {
      assert Apart(nodes, if i < k then i else i + 1, if j < k then j else j + 1);
    }
  }

  lemma {:induction false} ApartCons(node: LruNode, nodes: seq<LruNode>)
    requires AllApart(nodes) && node !in nodes
    ensures AllApart([node] + nodes)
  {
    var more := [node] + nodes;
    forall i, j | 0 <= i < j < |more| ensures Apart(more, i, j) {
      assert more[j] == nodes[j - 1];
      assert i > 0 ==> Apart(nodes, i - 1, j - 1);
    }
  }

  /** `nodes`, in order, are the nodes from `head` to `tail`, with inverse links. */
  ghost predicate Chained(members: set<LruNode>, nodes: seq<LruNode>, head: LruNode?, tail: LruNode?)
    reads members`prev, members`next
  {
    && AllIn(nodes, members)
    && AllApart(nodes)
    && head == (if nodes == [] then null else nodes[0])
    && tail == (if nodes == [] then null else nodes[|nodes| - 1])
    && (forall i {:trigger nodes[i].prev} :: 0 <= i < |nodes| ==> nodes[i].prev == if i == 0 then null else nodes[i - 1])
    && (forall i {:trigger nodes[i].next} :: 0 <= i < |nodes| ==> nodes[i].next == if i == |nodes| - 1 then null else nodes[i + 1])
  }

  /** The map holds exactly the given nodes, each under its key. */
  ghost predicate Indexes(index: map<string, LruNode>, members: set<LruNode>) {
    && (forall n :: n in members ==> n.key in index && index[n.key] == n)
    && (forall key :: key in index ==> index[key] in members && index[key].key == key)
  }

  /** The slots are the keys and entries of the nodes, in order. */
  ghost predicate Shows(members: set<LruNode>, nodes: seq<LruNode>, slots: seq<Slot>)
    reads members`entry
  {
    if nodes == [] then slots == []
    else slots != [] && ShowsOne(members, nodes[0], slots[0]) && Shows(members, nodes[1..], slots[1..])
  }

  ghost predicate ShowsOne(members: set<LruNode>, node: LruNode, slot: Slot)
    reads members`entry
  {
    node in members && slot == Slot(node.key, node.entry)
  }

  ghost predicate ShowsEach(members: set<LruNode>, nodes: seq<LruNode>, slots: seq<Slot>)
    reads members`entry
  {
    |slots| == |nodes| && forall i :: 0 <= i < |nodes| ==> ShowsOne(members, nodes[i], slots[i])
  }

  lemma {:induction false} ShowsMeans(members: set<LruNode>, nodes: seq<LruNode>, slots: seq<Slot>)
    ensures Shows(members, nodes, slots) <==> ShowsEach(members, nodes, slots)
  {
    if nodes != [] && slots != [] {
      var ns, ss := nodes[1..], slots[1..];
      ShowsMeans(members, ns, ss);
      if ShowsEach(members, nodes, slots) {
        assert forall i :: 0 <= i < |ns| ==> ns[i] == nodes[i + 1] && ss[i] == slots[i + 1];
      }
      if Shows(members, nodes, slots) {
        assert forall i :: 0 < i < |nodes| ==> nodes[i] == ns[i - 1] && slots[i] == ss[i - 1];
      }
    }
  }

  /** `t` is `s` without its element at `k`. */
  ghost predicate Cut<T>(s: seq<T>, k: nat, t: seq<T>) {
    && k < |s| == |t| + 1
    && (forall i :: 0 <= i < k ==> t[i] == s[i])
    && (forall i :: k <= i < |t| ==> t[i] == s[i + 1])
  }

  function Remove<T>(s: seq<T>, k: nat): (t: seq<T>)
    requires k < |s|
    ensures Cut(s, k, t)
  {
    s[..k] + s[k + 1..]
  }

  /** `t` is `s` with its element at `k` moved to the front. */
  ghost predicate Moved<T>(s: seq<T>, k: nat, t: seq<T>) {
    && k < |s| == |t|
    && t[0] == s[k]
    && (forall i :: 0 < i <= k ==> t[i] == s[i - 1])
    && (forall i :: k < i < |t| ==> t[i] == s[i])
  }

  lemma {:induction false} CutIsRemove<T>(s: seq<T>, k: nat, t: seq<T>)
    requires Cut(s, k, t)
    ensures t == s[..k] + s[k + 1..]
  {
  }

  lemma {:induction false} MovedIsFront<T>(s: seq<T>, k: nat, t: seq<T>)
    requires Moved(s, k, t)
    ensures t == [s[k]] + (s[..k] + s[k + 1..])
  {
  }

  ghost predicate AllIn(nodes: seq<LruNode>, members: set<LruNode>) {
    forall i :: 0 <= i < |nodes| ==> nodes[i] in members
  }

  /** Where a member stands in the list. */
  ghost function Position(nodes: seq<LruNode>, members: set<LruNode>, node: LruNode): (k: nat)
    requires Distinct(nodes) && AllIn(nodes, members) && |members| == |nodes| && node in members
    ensures k < |nodes| && nodes[k] == node
  {
    MembersAreListed(nodes, members, node);
    var k :| 0 <= k < |nodes| && nodes[k] == node; k
  }

  lemma {:induction false} MembersAreListed(nodes: seq<LruNode>, members: set<LruNode>, node: LruNode)
    requires Distinct(nodes) && AllIn(nodes, members) && |members| == |nodes| && node in members
    ensures exists k :: 0 <= k < |nodes| && nodes[k] == node
  {
    var listed := Elements(nodes);
    DistinctSize(nodes);
    assert listed <= members;
    if node !in listed {
      assert listed + {node} <= members;
      SubsetSize(listed + {node}, members);
    }
  }

  function Move<T>(s: seq<T>, k: nat): (t: seq<T>)
    requires k < |s|
    ensures Moved(s, k, t)
  {
    [s[k]] + Remove(s, k)
  }

  /** Only the listed nodes matter. */
  lemma {:induction false} ShowsAmong(members: set<LruNode>, others: set<LruNode>, nodes: seq<LruNode>, slots: seq<Slot>)
    requires Shows(members, nodes, slots) && AllIn(nodes, others)
    ensures Shows(others, nodes, slots)
  {
    ShowsMeans(members, nodes, slots);
    ShowsMeans(others, nodes, slots);
    assert forall i :: 0 <= i < |nodes| ==> ShowsOne(members, nodes[i], slots[i]);
  }

  lemma {:induction false} ShowsFront(members: set<LruNode>, nodes: seq<LruNode>, slots: seq<Slot>, node: LruNode)
    requires Shows(members, nodes, slots) && node in members
    ensures Shows(members, [node] + nodes, [Slot(node.key, node.entry)] + slots)
  {
    HeadTail(node, nodes);
    HeadTail(Slot(node.key, node.entry), slots);
  }

  lemma {:induction false} ShowsCut(
      members: set<LruNode>, nodes: seq<LruNode>, slots: seq<Slot>, k: nat, nodes': seq<LruNode>, slots': seq<Slot>)
    requires Shows(members, nodes, slots) && Cut(nodes, k, nodes') && Cut(slots, k, slots')
    ensures Shows(members, nodes', slots')
  {
    ShowsMeans(members, nodes, slots);
    ShowsMeans(members, nodes', slots');
  }

  lemma {:induction false} ShowsMoved(
      members: set<LruNode>, nodes: seq<LruNode>, slots: seq<Slot>, k: nat, nodes': seq<LruNode>, slots': seq<Slot>)
    requires Shows(members, nodes, slots) && Moved(nodes, k, nodes') && Moved(slots, k, slots')
    ensures Shows(members, nodes', slots')
  {
    ShowsMeans(members, nodes, slots);
    ShowsMeans(members, nodes', slots');
  }

  // ---- what the map says about the list ----

  lemma {:induction false} IndexedKeysDistinct(index: map<string, LruNode>, members: set<LruNode>, nodes: seq<LruNode>, slots: seq<Slot>)
    requires Indexes(index, members) && AllIn(nodes, members) && Distinct(nodes) && Shows(members, nodes, slots)
    ensures DistinctKeys(slots)
  {
    ShowsMeans(members, nodes, slots);
  }

  lemma {:induction false} IndexWithout(index: map<string, LruNode>, members: set<LruNode>, node: LruNode)
    requires Indexes(index, members) && node in members
    ensures Indexes(index - {node.key}, members - {node})
  {
  }

  lemma {:induction false} IndexWith(index: map<string, LruNode>, members: set<LruNode>, node: LruNode)
    requires Indexes(index, members) && node.key !in index
    ensures Indexes(index[node.key := node], members + {node})
  {
  }

  /** The map has as many keys as the list has nodes. */
  lemma {:induction false} IndexSize(index: map<string, LruNode>, members: set<LruNode>)
    requires Indexes(index, members)
    ensures |index| == |members|
    decreases |members|
  {
    if members == {} {
      assert index.Keys == {};
    } else {
      var n :| n in members;
      var smaller := index - {n.key};
      IndexWithout(index, members, n);
      IndexSize(smaller, members - {n});
      assert index.Keys == smaller.Keys + {n.key};
    }
  }

  lemma {:induction false} AbsentFromSlots(
      index: map<string, LruNode>, members: set<LruNode>, nodes: seq<LruNode>, slots: seq<Slot>, key: string)
    requires Indexes(index, members) && AllIn(nodes, members) && Shows(members, nodes, slots) && key !in index
    ensures Find(slots, key) == None && Without(slots, key) == slots
  {
    ShowsMeans(members, nodes, slots);
    WithoutAbsent(slots, key);
  }

  lemma {:induction false} PresentInSlots(
      index: map<string, LruNode>, members: set<LruNode>, nodes: seq<LruNode>, slots: seq<Slot>, k: nat)
    requires k < |nodes| && Indexes(index, members) && AllIn(nodes, members)
    requires Distinct(nodes) && Shows(members, nodes, slots) && |slots| == |nodes|
    ensures Find(slots, nodes[k].key) == Some(nodes[k].entry)
    ensures Without(slots, nodes[k].key) == slots[..k] + slots[k + 1..]
  {
    IndexedKeysDistinct(index, members, nodes, slots);
    ShowsMeans(members, nodes, slots);
    FindAt(slots, k);
    WithoutAt(slots, k);
  }

  lemma {:induction false} KeysAreIndexed(
      index: map<string, LruNode>, members: set<LruNode>, nodes: seq<LruNode>, slots: seq<Slot>)
    requires Indexes(index, members) && Shows(members, nodes, slots)
    ensures forall i :: 0 <= i < |slots| ==> slots[i].key in index
  {
    ShowsMeans(members, nodes, slots);
    forall i | 0 <= i < |slots| ensures slots[i].key in index {
      assert ShowsOne(members, nodes[i], slots[i]);
    }
  }

  class MemoryCacheStore {
    const maxItems: int
    var index: map<string, LruNode>
    var head: LruNode?
    var tail: LruNode?
    var hits: nat
    var misses: nat
    var evictions: nat
    ghost var nodes: seq<LruNode>
    ghost var slots: seq<Slot>
    ghost var members: set<LruNode>

    constructor (maxItems: int)
      ensures Valid() && this.maxItems == maxItems
      ensures nodes == [] && slots == [] && hits == misses == evictions == 0
    {
      this.maxItems := maxItems;
      index := map[];
      head, tail := null, null;
      hits, misses, evictions := 0, 0, 0;
      nodes, slots, members := [], [], {};
    }

    ghost predicate Consistent()
      reads this`index, this`head, this`tail, this`nodes, this`slots, this`members, members
    {
      Chained(members, nodes, head, tail) && |members| == |nodes| == |slots|
      && Indexes(index, members) && Shows(members, nodes, slots)
    }

    ghost predicate Valid()
      reads this`index, this`head, this`tail, this`nodes, this`slots, this`members, members
    {
      Consistent() && (nodes == [] || |nodes| <= maxItems)
    }

    // ---- link surgery ----

    method RemoveNode(node: LruNode, ghost k: nat)
      requires k < |nodes| && nodes[k] == node && Chained(members, nodes, head, tail)
      modifies this`head, this`tail, this`nodes, members`prev, members`next
      ensures Cut(old(nodes), k, nodes) && Chained(members, nodes, head, tail)
      ensures node !in nodes && node.prev == null && node.next == null
    {
      ApartFrom(nodes, k);
      if k > 0 { ApartFrom(nodes, k - 1); }
      if k < |nodes| - 1 { ApartFrom(nodes, k + 1); }
      ApartCut(nodes, k, Remove(nodes, k));
      assert node.prev == null <==> k == 0;
      assert node.next == null <==> k == |nodes| - 1;
      if node.prev != null {
        node.prev.next := node.next;
      }
      if node.next != null {
        node.next.prev := node.prev;
      }
      if head == node {
        head := node.next;
      }
      if tail == node {
        tail := node.prev;
      }
      node.prev := null;
      node.next := null;
      nodes := Remove(nodes, k);
    }

    method AddToHead(node: LruNode)
      requires Chained(members, nodes, head, tail) && node !in nodes && node in members
      modifies this`head, this`tail, this`nodes, members`prev, members`next
      ensures nodes == [node] + old(nodes) && Chained(members, nodes, head, tail)
    {
      if nodes != [] { ApartFrom(nodes, 0); }
      ApartCons(node, nodes);
      node.next := head;
      node.prev := null;
      if head != null {
        head.prev := node;
      }
      head := node;
      if tail == null {
        tail := node;
      }
      nodes := [node] + nodes;
    }

    method MoveToHead(node: LruNode, ghost k: nat)
      requires k < |nodes| && nodes[k] == node && Chained(members, nodes, head, tail)
      modifies this`head, this`tail, this`nodes, members`prev, members`next
      ensures Moved(old(nodes), k, nodes) && Chained(members, nodes, head, tail)
    {
      RemoveNode(node, k);
      AddToHead(node);
    }

    /** `Evict` on the node at position `k`. */
    method EvictAt(node: LruNode, ghost k: nat)
      requires Consistent() && k < |nodes| && nodes[k] == node
      modifies this`index, this`head, this`tail, this`nodes, this`slots, this`members, this`evictions
      modifies members`prev, members`next
      ensures Consistent()
      ensures |nodes| == |old(nodes)| - 1 && members == old(members) - {node}
      ensures index == old(index) - {node.key}
      ensures evictions == old(evictions) + 1
      ensures Cut(old(slots), k, slots)
    {
      ghost var before, list := nodes, slots;
      IndexWithout(index, members, node);
      evictions := evictions + 1;
      index := index - {node.key};
      slots := Remove(slots, k);
      RemoveNode(node, k);
      ShowsCut(members, before, list, k, nodes, slots);
      ShowsAmong(members, members - {node}, nodes, slots);
      members := members - {node};
    }

    /** `MoveToHead` on a consistent store, with the slots kept in step. */
    method Touch(node: LruNode, ghost k: nat)
      requires Consistent() && k < |nodes| && nodes[k] == node
      modifies this`head, this`tail, this`nodes, this`slots, members`prev, members`next
      ensures Consistent() && |nodes| == |old(nodes)| && nodes[0] == node
      ensures Moved(old(slots), k, slots)
    {
      ghost var before, list := nodes, slots;
      slots := Move(slots, k);
      MoveToHead(node, k);
      ShowsMoved(members, before, list, k, nodes, slots);
    }

    method Evict(node: LruNode)
      requires Consistent() && node in members
      modifies this`index, this`head, this`tail, this`nodes, this`slots, this`members, this`evictions
      modifies members`prev, members`next
      ensures Consistent() && slots == Without(old(slots), node.key)
      ensures |nodes| == |old(nodes)| - 1 && members == old(members) - {node}
      ensures index == old(index) - {node.key}
      ensures evictions == old(evictions) + 1
    {
      ApartIsDistinct(nodes);
      ghost var k := Position(nodes, members, node);
      PresentInSlots(index, members, nodes, slots, k);
      EvictAt(node, k);
      CutIsRemove(old(slots), k, slots);
    }

    method EvictTail()
      requires Consistent()
      modifies this`index, this`head, this`tail, this`nodes, this`slots, this`members, this`evictions
      modifies members`prev, members`next
      ensures Consistent() && members <= old(members)
      ensures slots == if old(slots) == [] then [] else old(slots)[..|old(slots)| - 1]
      ensures |nodes| == if old(nodes) == [] then 0 else |old(nodes)| - 1
      ensures evictions == old(evictions) + (if old(nodes) == [] then 0 else 1)
    {
      if tail != null {
        EvictAt(tail, |nodes| - 1);
        CutIsRemove(old(slots), |old(slots)| - 1, slots);
      }
    }

    /** `MoveToHead` on a node of the store. */
    method Use(node: LruNode)
      requires Consistent() && node in members
      modifies this`head, this`tail, this`nodes, this`slots, members`prev, members`next
      ensures Consistent() && |nodes| == |old(nodes)|
      ensures slots == [Slot(node.key, node.entry)] + Without(old(slots), node.key)
    {
      ApartIsDistinct(nodes);
      ghost var k := Position(nodes, members, node);
      PresentInSlots(index, members, nodes, slots, k);
      ShowsMeans(members, nodes, slots);
      assert ShowsOne(members, nodes[k], slots[k]);
      Touch(node, k);
      MovedIsFront(old(slots), k, slots);
    }

    /** The entry of a stored node is replaced where it is. */
    method Replace(node: LruNode, entry: CacheEntry)
      requires Consistent() && node in members
      modifies this`slots, node`entry
      ensures Consistent() && node.entry == entry
      ensures Without(slots, node.key) == Without(old(slots), node.key)
      ensures HasKey(old(slots), node.key)
    {
      ApartIsDistinct(nodes);
      ghost var k := Position(nodes, members, node);
      PresentInSlots(index, members, nodes, slots, k);
      ShowsMeans(members, nodes, slots);
      ApartFrom(nodes, k);
      slots := slots[k := Slot(node.key, entry)];
      node.entry := entry;
      ghost var list := slots;
      assert forall i :: 0 <= i < |nodes| && i != k ==> ShowsOne(members, nodes[i], list[i]);
      ShowsMeans(members, nodes, slots);
      PresentInSlots(index, members, nodes, slots, k);
    }

    /** A new node is indexed and put in front. */
    method Insert(node: LruNode)
      requires Consistent() && node !in members && node.key !in index
      modifies this`index, this`head, this`tail, this`nodes, this`slots, this`members
      modifies members`prev, members`next, node`prev, node`next
      ensures Consistent() && |nodes| == |old(nodes)| + 1
      ensures members == old(members) + {node}
      ensures slots == [Slot(node.key, node.entry)] + old(slots)
    {
      ghost var list := slots;
      IndexWith(index, members, node);
      index := index[node.key := node];
      slots := [Slot(node.key, node.entry)] + slots;
      ShowsAmong(members, members + {node}, nodes, list);
      members := members + {node};
      ShowsFront(members, nodes, list, node);
      AddToHead(node);
    }

    /** What the list says of the key of a stored node. */
    lemma {:induction false} EntryOfKey(node: LruNode)
      requires Consistent() && node in members
      ensures Find(slots, node.key) == Some(node.entry)
    {
      ApartIsDistinct(nodes);
      PresentInSlots(index, members, nodes, slots, Position(nodes, members, node));
    }

    // ---- the store's operations ----

    method Get(key: string, now: int) returns (r: Option<CacheEntry>)
      requires Valid()
      modifies this, members
      ensures Valid() && members <= old(members)
      ensures r == Hit(old(slots), key, now)
      ensures slots == RecencyList.Get(old(slots), key, now)
      ensures hits == old(hits) + (if r.Some? then 1 else 0)
      ensures misses == old(misses) + (if r.None? then 1 else 0)
      ensures evictions == old(evictions) + (if Expired(old(slots), key, now) then 1 else 0)
    {
      if key !in index {
        CountMiss(key, now);
        return None;
      }
      var node := index[key];
      if node.entry.expiresAt <= now {
        DropExpired(node, now);
        return None;
      }
      r := CountHit(node, now);
    }

    /** The end of `Get` for a key that is not stored. */
    method CountMiss(key: string, now: int)
      requires Valid() && key !in index
      modifies this`misses
      ensures Find(slots, key) == None && slots == RecencyList.Get(slots, key, now)
      ensures misses == old(misses) + 1
    {
      misses := misses + 1;
      AbsentFromSlots(index, members, nodes, slots, key);
    }

    /** The end of `Get` for a stored entry that has expired. */
    method DropExpired(node: LruNode, now: int)
      requires Valid() && node in members && node.entry.expiresAt <= now
      modifies this`index, this`head, this`tail, this`nodes, this`slots, this`members, this`evictions, this`misses
      modifies members`prev, members`next
      ensures Valid() && members <= old(members)
      ensures Expired(old(slots), node.key, now) && slots == RecencyList.Get(old(slots), node.key, now)
      ensures misses == old(misses) + 1 && evictions == old(evictions) + 1
    {
      EntryOfKey(node);
      misses := misses + 1;
      Evict(node);
    }

    /** The end of `Get` for one that has not. */
    method CountHit(node: LruNode, now: int) returns (r: Option<CacheEntry>)
      requires Valid() && node in members && node.entry.expiresAt > now
      modifies this`head, this`tail, this`nodes, this`slots, this`hits, members`prev, members`next
      ensures Valid()
      ensures r.Some? && r == Hit(old(slots), node.key, now) && slots == RecencyList.Get(old(slots), node.key, now)
      ensures hits == old(hits) + 1
    {
      EntryOfKey(node);
      hits := hits + 1;
      r := Some(node.entry);
      Use(node);
    }

    method Set(key: string, entry: CacheEntry)
      requires Valid()
      modifies this, members
      ensures Valid() && forall n :: n in members ==> n in old(members) || fresh(n)
      ensures slots == RecencyList.Set(old(slots), key, entry, maxItems)
      ensures hits == old(hits) && misses == old(misses)
      ensures evictions == old(evictions) + (if !HasKey(old(slots), key) && |old(slots)| >= maxItems then 1 else 0)
    {
      if key in index {
        var existing := index[key];
        Replace(existing, entry);
        Use(existing);
        return;
      }
      AbsentFromSlots(index, members, nodes, slots, key);
      Add(key, entry);
    }

    /** The part of `Set` for a key that is not stored. */
    method Add(key: string, entry: CacheEntry)
      requires Valid() && key !in index
      modifies this`index, this`head, this`tail, this`nodes, this`slots, this`members, this`evictions
      modifies members`prev, members`next
      ensures Valid() && forall n :: n in members ==> n in old(members) || fresh(n)
      ensures |slots| <= maxItems || slots == []
      ensures var more := [Slot(key, entry)] + old(slots); slots == if |more| > maxItems then more[..|more| - 1] else more
      ensures evictions == old(evictions) + (if |old(slots)| >= maxItems then 1 else 0)
    {
      var node := new LruNode(key, entry);
      Insert(node);
      IndexSize(index, members);
      if |index| > maxItems {
        EvictTail();
      }
    }

    method Delete(key: string)
      requires Valid()
      modifies this`index, this`head, this`tail, this`nodes, this`slots, this`members, this`evictions
      modifies members`prev, members`next
      ensures Valid() && members <= old(members)
      ensures slots == Without(old(slots), key)
      ensures evictions == old(evictions) + (if HasKey(old(slots), key) then 1 else 0)
    {
      if key in index {
        EntryOfKey(index[key]);
        Evict(index[key]);
      } else {
        AbsentFromSlots(index, members, nodes, slots, key);
      }
    }

    method Has(key: string, now: int) returns (r: bool)
      requires Valid()
      modifies this`index, this`head, this`tail, this`nodes, this`slots, this`members, this`evictions
      modifies members`prev, members`next
      ensures Valid() && members <= old(members)
      ensures r <==> Hit(old(slots), key, now).Some?
      ensures slots == RecencyList.Has(old(slots), key, now)
      ensures evictions == old(evictions) + (if Expired(old(slots), key, now) then 1 else 0)
    {
      if key !in index {
        AbsentFromSlots(index, members, nodes, slots, key);
        return false;
      }
      var node := index[key];
      EntryOfKey(node);
      if node.entry.expiresAt <= now {
        Evict(node);
        return false;
      }
      return true;
    }

    /** The walk visits every key present when it starts; `Map` iteration order is left
        open because the outcome does not depend on it. */
    method DeleteByPrefix(prefix: string) returns (count: nat)
      requires Valid()
      modifies this`index, this`head, this`tail, this`nodes, this`slots, this`members, this`evictions
      modifies members`prev, members`next
      ensures Valid() && members <= old(members)
      ensures slots == WithoutPrefix(old(slots), prefix)
      ensures count == |old(slots)| - |slots| && evictions == old(evictions) + count
    {
      count := 0;
      var todo := index.Keys;
      ghost var all, done: set<string> := index.Keys, {};
      KeysAreIndexed(index, members, nodes, slots);
      WithoutSomeNone(slots, prefix);
      while todo != {}
        invariant Consistent() && members <= old(members) && |nodes| + count == |old(nodes)|
        invariant todo <= index.Keys && done + todo == all
        invariant slots == WithoutSome(old(slots), prefix, done)
        invariant evictions == old(evictions) + count
        decreases todo
      {
        var key :| key in todo;
        todo := todo - {key};
        WithoutSomeStep(old(slots), prefix, done, key);
        done := done + {key};
        if prefix <= key {
          Evict(index[key]);
          count := count + 1;
        }
      }
      WithoutSomeAll(old(slots), prefix, done);
    }
  }
}
