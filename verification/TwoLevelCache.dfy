/**
 The two-level cache: the in-memory store in front of Redis answers as one map with
 expiry times would, and a write that does not reach both levels is where it fails to.
 */
module TwoLevelCache {
  import opened Prelude
  import opened RecencyList
  import opened LruStore

  /** A Redis value and the instant from which Redis no longer has it. */
  datatype Row = Row(entry: CacheEntry, until: int)

  function Lookup(rows: map<string, Row>, key: string, now: int): Option<CacheEntry> {
    if key in rows && rows[key].until > now then Some(rows[key].entry) else None
  }

  function Written(rows: map<string, Row>, key: string, entry: CacheEntry, now: int): map<string, Row> {
    if entry.expiresAt - now <= 0 then rows else rows[key := Row(entry, now + (entry.expiresAt - now))]
  }

  class RedisCacheStore {
    var rows: map<string, Row>

    constructor ()
      ensures rows == map[]
    {
      rows := map[];
    }

    method Get(key: string, now: int) returns (r: Option<CacheEntry>)
      ensures r == Lookup(rows, key, now)
    {
      if key in rows && now < rows[key].until {
        return Some(rows[key].entry);
      }
      return None;
    }

    method Set(key: string, entry: CacheEntry, now: int)
      modifies this
      ensures rows == Written(old(rows), key, entry, now)
    {
      var ttlMs := entry.expiresAt - now;
      if ttlMs <= 0 {
        return;
      }
      rows := rows[key := Row(entry, now + ttlMs)];
    }

    method Delete(key: string)
      modifies this
      ensures rows == old(rows) - {key}
    {
      rows := rows - {key};
    }

    method Has(key: string, now: int) returns (r: bool)
      ensures r <==> Lookup(rows, key, now).Some?
    {
      r := key in rows && now < rows[key].until;
    }
  }

  // ---- the two levels as values ----

  datatype Caches = Caches(list: seq<Slot>, rows: map<string, Row>)

  datatype Op =
    | OpGet(key: string)
    | OpSet(key: string, value: string, ttlMs: int, l2Only: bool)
    | OpDelete(key: string)
    | OpHas(key: string)

  datatype Answer = Value(value: Option<string>) | Known(known: bool) | Done

  function Read(c: Caches, key: string, now: int): Option<CacheEntry> {
    if Hit(c.list, key, now).Some? then Hit(c.list, key, now) else Lookup(c.rows, key, now)
  }

  function ValueOf(e: Option<CacheEntry>): Option<string> {
    if e.Some? then Some(e.value.value) else None
  }

  function AfterGet(c: Caches, key: string, now: int, maxItems: int): Caches {
    var list := RecencyList.Get(c.list, key, now);
    if Hit(c.list, key, now).None? && Lookup(c.rows, key, now).Some? then
      c.(list := RecencyList.Set(list, key, Lookup(c.rows, key, now).value, maxItems))
    else c.(list := list)
  }

  function AfterSet(c: Caches, key: string, entry: CacheEntry, l2Only: bool, now: int, maxItems: int): Caches {
    Caches(if l2Only then c.list else RecencyList.Set(c.list, key, entry, maxItems), Written(c.rows, key, entry, now))
  }

  function Step(c: Caches, op: Op, now: int, maxItems: int): (Caches, Answer) {
    match op
    case OpGet(key) => (AfterGet(c, key, now, maxItems), Value(ValueOf(Read(c, key, now))))
    case OpSet(key, value, ttlMs, l2Only) =>
      (AfterSet(c, key, CacheEntry(value, now, now + ttlMs), l2Only, now, maxItems), Done)
    case OpDelete(key) => (Caches(Without(c.list, key), c.rows - {key}), Done)
    case OpHas(key) =>
      (c.(list := RecencyList.Has(c.list, key, now)), Known(Read(c, key, now).Some?))
  }

  // ---- one map with expiry times ----

  type TtlMap = map<string, CacheEntry>

  function Current(m: TtlMap, key: string, now: int): Option<CacheEntry> {
    if key in m && m[key].expiresAt > now then Some(m[key]) else None
  }

  function TtlStep(m: TtlMap, op: Op, now: int): (TtlMap, Answer) {
    match op
    case OpGet(key) => (m, Value(ValueOf(Current(m, key, now))))
    case OpSet(key, value, ttlMs, _) => (m[key := CacheEntry(value, now, now + ttlMs)], Done)
    case OpDelete(key) => (m - {key}, Done)
    case OpHas(key) => (m, Known(Current(m, key, now).Some?))
  }

  /** Redis has what the map has, and the first level has nothing live beside it. */
  ghost predicate Mirrors(c: Caches, m: TtlMap, now: int) {
    && (forall key :: key in c.rows ==> c.rows[key].until == c.rows[key].entry.expiresAt)
    && (forall key :: Lookup(c.rows, key, now) == Current(m, key, now))
    && (forall key :: Hit(c.list, key, now).Some? ==> Hit(c.list, key, now) == Current(m, key, now))
  }

  lemma {:induction false} MirrorsLater(c: Caches, m: TtlMap, now: int, later: int)
    requires Mirrors(c, m, now) && now <= later
    ensures Mirrors(c, m, later)
  {
    forall key
      ensures Lookup(c.rows, key, later) == Current(m, key, later)
      ensures Hit(c.list, key, later).Some? ==> Hit(c.list, key, later) == Current(m, key, later)
    {
      assert Lookup(c.rows, key, now) == Current(m, key, now);
      assert Hit(c.list, key, now).Some? ==> Hit(c.list, key, now) == Current(m, key, now);
    }
  }

  lemma {:induction false} ReadIsCurrent(c: Caches, m: TtlMap, key: string, now: int)
    requires Mirrors(c, m, now)
    ensures Read(c, key, now) == Current(m, key, now)
  {
    assert Lookup(c.rows, key, now) == Current(m, key, now);
  }

  // ---- what the first level's operations do to other keys ----

  lemma {:induction false} FindTruncated(list: seq<Slot>, k: string)
    requires list != []
    ensures var f := Find(list[..|list| - 1], k); f == None || f == Find(list, k)
  {
    if |list| > 1 && list[0].key != k {
      FindTruncated(list[1..], k);
      assert list[..|list| - 1][1..] == list[1..][..|list| - 2];
    }
  }

  lemma {:induction false} FindGet(list: seq<Slot>, key: string, now: int, k: string)
    ensures Hit(RecencyList.Get(list, key, now), k, now) == Hit(list, k, now)
  {
    FindWithout(list, key, k);
    if Hit(list, key, now).Some? {
      HeadTail(Slot(key, Hit(list, key, now).value), Without(list, key));
    }
  }

  lemma {:induction false} FindSet(list: seq<Slot>, key: string, entry: CacheEntry, maxItems: int, k: string)
    ensures var f := Find(RecencyList.Set(list, key, entry, maxItems), k);
            f == None || f == if k == key then Some(entry) else Find(list, k)
  {
    var moved := [Slot(key, entry)] + Without(list, key);
    FindWithout(list, key, k);
    HeadTail(Slot(key, entry), Without(list, key));
    FindTruncated(moved, k);
  }

  lemma {:induction false} FindHas(list: seq<Slot>, key: string, now: int, k: string)
    ensures Hit(RecencyList.Has(list, key, now), k, now) == Hit(list, k, now)
  {
    FindWithout(list, key, k);
  }

  // ---- each operation ----

  lemma {:induction false} GetMirrors(c: Caches, m: TtlMap, key: string, now: int, maxItems: int)
    requires Mirrors(c, m, now)
    ensures Mirrors(AfterGet(c, key, now, maxItems), m, now)
  {
    var after, list := AfterGet(c, key, now, maxItems), RecencyList.Get(c.list, key, now);
    forall k | Hit(after.list, k, now).Some? ensures Hit(after.list, k, now) == Current(m, k, now) {
      FindGet(c.list, key, now, k);
      assert Lookup(c.rows, key, now) == Current(m, key, now);
      if Hit(c.list, key, now).None? && Lookup(c.rows, key, now).Some? {
        FindSet(list, key, Lookup(c.rows, key, now).value, maxItems, k);
      }
      assert Hit(c.list, k, now).Some? ==> Hit(c.list, k, now) == Current(m, k, now);
    }
  }

  /** What a read finds, in either level, is in the first level afterwards. */
  lemma {:induction false} ReadIsPromoted(c: Caches, key: string, now: int, maxItems: int)
    requires RecencyList.DistinctKeys(c.list) && maxItems >= 1
    requires key in c.rows ==> c.rows[key].until == c.rows[key].entry.expiresAt
    ensures Hit(AfterGet(c, key, now, maxItems).list, key, now) == Read(c, key, now)
  {
    var list := RecencyList.Get(c.list, key, now);
    FindGet(c.list, key, now, key);
    DistinctWithout(c.list, key);
    if Hit(c.list, key, now).None? && Lookup(c.rows, key, now).Some? {
      FindAfterSet(list, key, Lookup(c.rows, key, now).value, maxItems, key);
    }
  }

  /** So is what is written to both levels. */
  lemma {:induction false} WriteIsFirstLevel(c: Caches, key: string, value: string, ttlMs: int, now: int, maxItems: int)
    requires RecencyList.DistinctKeys(c.list) && maxItems >= 1 && ttlMs > 0
    ensures Hit(Step(c, OpSet(key, value, ttlMs, false), now, maxItems).0.list, key, now)
         == Some(CacheEntry(value, now, now + ttlMs))
  {
    FindAfterSet(c.list, key, CacheEntry(value, now, now + ttlMs), maxItems, key);
  }

  lemma {:induction false} DeleteMirrors(c: Caches, m: TtlMap, key: string, now: int)
    requires Mirrors(c, m, now)
    ensures Mirrors(Caches(Without(c.list, key), c.rows - {key}), m - {key}, now)
  {
    var after := Caches(Without(c.list, key), c.rows - {key});
    forall k
      ensures Lookup(after.rows, k, now) == Current(m - {key}, k, now)
      ensures Hit(after.list, k, now).Some? ==> Hit(after.list, k, now) == Current(m - {key}, k, now)
    {
      FindWithout(c.list, key, k);
      assert Lookup(c.rows, k, now) == Current(m, k, now);
      assert Hit(c.list, k, now).Some? ==> Hit(c.list, k, now) == Current(m, k, now);
    }
  }

  lemma {:induction false} HasMirrors(c: Caches, m: TtlMap, key: string, now: int)
    requires Mirrors(c, m, now)
    ensures Mirrors(c.(list := RecencyList.Has(c.list, key, now)), m, now)
  {
    var after := c.(list := RecencyList.Has(c.list, key, now));
    forall k | Hit(after.list, k, now).Some? ensures Hit(after.list, k, now) == Current(m, k, now) {
      FindHas(c.list, key, now, k);
      assert Hit(c.list, k, now).Some? ==> Hit(c.list, k, now) == Current(m, k, now);
    }
  }

  /** The write reaches Redis or has nothing there to replace, and if it leaves the first
      level alone there is nothing live there to go stale. */
  predicate SetReaches(c: Caches, key: string, entry: CacheEntry, l2Only: bool, now: int) {
    && (entry.expiresAt > now || Lookup(c.rows, key, now).None?)
    && (l2Only && entry.expiresAt > now ==> Hit(c.list, key, now).None? || Hit(c.list, key, now) == Some(entry))
  }

  lemma {:induction false} SetMirrors(
      c: Caches, m: TtlMap, key: string, entry: CacheEntry, l2Only: bool, now: int, maxItems: int)
    requires Mirrors(c, m, now) && SetReaches(c, key, entry, l2Only, now)
    ensures Mirrors(AfterSet(c, key, entry, l2Only, now, maxItems), m[key := entry], now)
  {
    var after := AfterSet(c, key, entry, l2Only, now, maxItems);
    assert Hit(c.list, key, now).Some? ==> Hit(c.list, key, now) == Current(m, key, now);
    assert Lookup(c.rows, key, now) == Current(m, key, now);
    forall k
      ensures Lookup(after.rows, k, now) == Current(m[key := entry], k, now)
      ensures Hit(after.list, k, now).Some? ==> Hit(after.list, k, now) == Current(m[key := entry], k, now)
    {
      FindSet(c.list, key, entry, maxItems, k);
      assert Lookup(c.rows, k, now) == Current(m, k, now);
      assert Hit(c.list, k, now).Some? ==> Hit(c.list, k, now) == Current(m, k, now);
    }
  }

  /** A write that does not reach is seen at once: the next read of the key is stale. */
  lemma {:induction false} MissedSetIsSeen(
      c: Caches, m: TtlMap, key: string, entry: CacheEntry, l2Only: bool, now: int, maxItems: int)
    requires Mirrors(c, m, now) && !SetReaches(c, key, entry, l2Only, now)
    ensures Read(AfterSet(c, key, entry, l2Only, now, maxItems), key, now) != Current(m[key := entry], key, now)
  {
    FindSet(c.list, key, entry, maxItems, key);
    assert Lookup(c.rows, key, now) == Current(m, key, now);
    assert Hit(c.list, key, now).Some? ==> Hit(c.list, key, now) == Current(m, key, now);
  }

  /** After a write the two levels still stand for the map exactly when the write reaches. */
  lemma {:induction false} SetMirrorsExactlyWhen(
      c: Caches, m: TtlMap, key: string, entry: CacheEntry, l2Only: bool, now: int, maxItems: int)
    requires Mirrors(c, m, now)
    ensures Mirrors(AfterSet(c, key, entry, l2Only, now, maxItems), m[key := entry], now)
       <==> SetReaches(c, key, entry, l2Only, now)
  {
    if SetReaches(c, key, entry, l2Only, now) {
      SetMirrors(c, m, key, entry, l2Only, now, maxItems);
    } else {
      MissedSetIsSeen(c, m, key, entry, l2Only, now, maxItems);
      if Mirrors(AfterSet(c, key, entry, l2Only, now, maxItems), m[key := entry], now) {
        ReadIsCurrent(AfterSet(c, key, entry, l2Only, now, maxItems), m[key := entry], key, now);
      }
    }
  }

  /** A lifetime that is not positive: the old value is read although it was overwritten. */
  lemma {:induction false} ExpiredWriteLeavesOldValue(maxItems: int)
    ensures var c0 := Caches([], map[]);
            var c1 := Step(c0, OpSet("k", "old", 1000, false), 0, maxItems).0;
            var c2 := Step(c1, OpSet("k", "new", 0, false), 1, maxItems).0;
            Step(c2, OpGet("k"), 2, maxItems).1 == Value(Some("old"))
  {
    var first, second := CacheEntry("old", 0, 1000), CacheEntry("new", 1, 1);
    var l1 := RecencyList.Set([], "k", first, maxItems);
    var l2 := RecencyList.Set(l1, "k", second, maxItems);
    FindSet(l1, "k", second, maxItems, "k");
  }

  // ---- whole runs ----

  datatype Call = Call(op: Op, now: int)

  /** Positive lifetimes and writes to both levels, on a clock that does not go back. */
  ghost predicate Ordinary(calls: seq<Call>, start: int) {
    && (forall i :: 0 <= i < |calls| ==> calls[i].op.OpSet? ==> calls[i].op.ttlMs > 0 && !calls[i].op.l2Only)
    && (forall i :: 0 <= i < |calls| ==> start <= calls[i].now)
    && (forall i, j :: 0 <= i < j < |calls| ==> calls[i].now <= calls[j].now)
  }

  function Answers(c: Caches, calls: seq<Call>, maxItems: int): seq<Answer>
    decreases |calls|
  {
    if calls == [] then []
    else
      var s := Step(c, calls[0].op, calls[0].now, maxItems);
      [s.1] + Answers(s.0, calls[1..], maxItems)
  }

  function TtlAnswers(m: TtlMap, calls: seq<Call>): seq<Answer>
    decreases |calls|
  {
    if calls == [] then []
    else
      var s := TtlStep(m, calls[0].op, calls[0].now);
      [s.1] + TtlAnswers(s.0, calls[1..])
  }

  lemma {:induction false} StepMirrors(c: Caches, m: TtlMap, op: Op, now: int, maxItems: int)
    requires Mirrors(c, m, now) && (op.OpSet? ==> op.ttlMs > 0 && !op.l2Only)
    ensures Mirrors(Step(c, op, now, maxItems).0, TtlStep(m, op, now).0, now)
    ensures Step(c, op, now, maxItems).1 == TtlStep(m, op, now).1
  {
    match op
    case OpGet(key) =>
      GetMirrors(c, m, key, now, maxItems);
      ReadIsCurrent(c, m, key, now);
    case OpSet(key, value, ttlMs, l2Only) =>
      SetMirrors(c, m, key, CacheEntry(value, now, now + ttlMs), l2Only, now, maxItems);
    case OpDelete(key) =>
      DeleteMirrors(c, m, key, now);
    case OpHas(key) =>
      HasMirrors(c, m, key, now);
      ReadIsCurrent(c, m, key, now);
  }

  lemma {:induction false} RunMirrors(c: Caches, m: TtlMap, calls: seq<Call>, start: int, maxItems: int)
    requires Mirrors(c, m, start) && Ordinary(calls, start)
    ensures Answers(c, calls, maxItems) == TtlAnswers(m, calls)
    decreases |calls|
  {
    if calls != [] {
      var op, now := calls[0].op, calls[0].now;
      MirrorsLater(c, m, start, now);
      StepMirrors(c, m, op, now, maxItems);
      var rest := calls[1..];
      assert Ordinary(rest, now) by {
        assert forall i :: 0 <= i < |rest| ==> rest[i] == calls[i + 1];
      }
      RunMirrors(Step(c, op, now, maxItems).0, TtlStep(m, op, now).0, rest, now, maxItems);
    }
  }

  /** From empty caches, any ordinary run is answered as one map with expiry times
      answers it: eviction from the first level and promotion into it do not show. */
  lemma {:induction false} FirstLevelIsInvisible(calls: seq<Call>, start: int, maxItems: int)
    requires Ordinary(calls, start)
    ensures Answers(Caches([], map[]), calls, maxItems) == TtlAnswers(map[], calls)
  {
    RunMirrors(Caches([], map[]), map[], calls, start, maxItems);
  }

  // ---- the service ----

  class CacheService {
    const l1: MemoryCacheStore
    const l2: RedisCacheStore

    constructor (l1: MemoryCacheStore, l2: RedisCacheStore)
      ensures this.l1 == l1 && this.l2 == l2
    {
      this.l1, this.l2 := l1, l2;
    }

    ghost function State(): Caches
      reads l1, l2
    {
      Caches(l1.slots, l2.rows)
    }

    method Get(key: string, now: int) returns (r: Option<string>)
      requires l1.Valid()
      modifies l1, l1.members
      ensures l1.Valid() && State() == AfterGet(old(State()), key, now, l1.maxItems)
      ensures r == ValueOf(Read(old(State()), key, now))
    {
      var l1hit := l1.Get(key, now);
      if l1hit.Some? {
        return Some(l1hit.value.value);
      }
      var l2hit := l2.Get(key, now);
      if l2hit.Some? {
        l1.Set(key, l2hit.value);
        return Some(l2hit.value.value);
      }
      return None;
    }

    method Set(key: string, value: string, ttlSeconds: int, jitterMs: int, l2Only: bool, now: int)
      requires l1.Valid()
      modifies l1, l1.members, l2
      ensures l1.Valid()
      ensures State() == Step(old(State()), OpSet(key, value, ttlSeconds * 1000 + jitterMs, l2Only), now, l1.maxItems).0
    {
      var ttlMs := ttlSeconds * 1000 + jitterMs;
      var entry := CacheEntry(value, now, now + ttlMs);
      if !l2Only {
        l1.Set(key, entry);
      }
      l2.Set(key, entry, now);
    }

    method Delete(key: string)
      requires l1.Valid()
      modifies l1, l1.members, l2
      ensures l1.Valid() && State() == Step(old(State()), OpDelete(key), 0, l1.maxItems).0
    {
      l1.Delete(key);
      l2.Delete(key);
    }

    method Has(key: string, now: int) returns (r: bool)
      requires l1.Valid()
      modifies l1, l1.members
      ensures l1.Valid() && State() == Step(old(State()), OpHas(key), now, l1.maxItems).0
      ensures r <==> Read(old(State()), key, now).Some?
    {
      r := l1.Has(key, now);
      if !r {
        r := l2.Has(key, now);
      }
    }
  }
}
