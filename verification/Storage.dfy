/**
 The storage service: a catalog of rows, usage totals per guild and the bytes of the
 driver. Storing dedupes equal bytes, deleting releases them; the theorems are about
 every sequential run of both.
 */
module Storage {
  import opened Prelude

  type Bytes = seq<bv8>

  /** A hash without collisions whose texts have no slash, as hex digits have none. */
  ghost predicate ContentHash(h: Bytes -> string) {
    && (forall a, b :: h(a) == h(b) ==> a == b)
    && (forall a :: '/' !in h(a))
  }

  datatype Row = Row(
    id: string, guildId: Option<string>, namespace: string, key: string, contentHash: string, size: nat,
    refCount: int, deleted: bool)

  datatype Usage = Usage(usedBytes: int, objectCount: int)

  datatype Store = Store(rows: seq<Row>, usage: map<string, Usage>, bytes: map<string, Bytes>)

  datatype StorageError = QuotaExceeded(projected: int) | NotFound

  datatype Ref = Ref(id: string, deduped: bool)

  function ObjectKey(guildId: Option<string>, namespace: string, hash: string): string {
    (if guildId.Some? then guildId.value else "global") + "/" + namespace + "/" + hash
  }

  // ---- the operations, as functions ----

  predicate Holds(row: Row, guildId: Option<string>, namespace: string, hash: string) {
    !row.deleted && row.guildId == guildId && row.namespace == namespace && row.contentHash == hash
  }

  function FindByHash(rows: seq<Row>, guildId: Option<string>, namespace: string, hash: string): (r: Option<nat>)
    ensures r.Some? ==> r.value < |rows| && Holds(rows[r.value], guildId, namespace, hash)
    ensures r.None? ==> forall i :: 0 <= i < |rows| ==> !Holds(rows[i], guildId, namespace, hash)
  {
    if rows == [] then None
    else if Holds(rows[|rows| - 1], guildId, namespace, hash) then Some(|rows| - 1)
    else FindByHash(rows[..|rows| - 1], guildId, namespace, hash)
  }

  function FindById(rows: seq<Row>, id: string): (r: Option<nat>)
    ensures r.Some? ==> r.value < |rows| && rows[r.value].id == id && !rows[r.value].deleted
    ensures r.None? ==> forall i :: 0 <= i < |rows| ==> rows[i].id != id || rows[i].deleted
  {
    if rows == [] then None
    else if rows[|rows| - 1].id == id && !rows[|rows| - 1].deleted then Some(|rows| - 1)
    else FindById(rows[..|rows| - 1], id)
  }

  function UsageOf(s: Store, guild: string): Usage {
    if guild in s.usage then s.usage[guild] else Usage(0, 0)
  }

  function AddUsage(usage: map<string, Usage>, guild: string, bytes: int, count: int): map<string, Usage> {
    usage[guild := if guild in usage then Usage(usage[guild].usedBytes + bytes, usage[guild].objectCount + count)
                   else Usage(bytes, count)]
  }

  /** An absent guild and one with an empty name have no usage kept. */
  predicate Accounted(guildId: Option<string>) {
    guildId.Some? && guildId.value != ""
  }

  function Accounting(usage: map<string, Usage>, guildId: Option<string>, bytes: int, count: int): map<string, Usage> {
    if Accounted(guildId) then AddUsage(usage, guildId.value, bytes, count) else usage
  }

  predicate OverQuota(s: Store, quota: string -> nat, guildId: Option<string>, size: nat) {
    guildId.Some? && quota(guildId.value) != 0 && UsageOf(s, guildId.value).usedBytes + size > quota(guildId.value)
  }

  function Put(
      h: Bytes -> string, quota: string -> nat, s: Store,
      guildId: Option<string>, namespace: string, body: Bytes, newId: string): (Store, Result<Ref, StorageError>)
  {
    var hash := h(body);
    if OverQuota(s, quota, guildId, |body|) then
      (s, Err(QuotaExceeded(UsageOf(s, guildId.value).usedBytes + |body|)))
    else
      var found := FindByHash(s.rows, guildId, namespace, hash);
      if found.Some? then
        var row := s.rows[found.value];
        (s.(rows := s.rows[found.value := row.(refCount := row.refCount + 1)]), Ok(Ref(row.id, true)))
      else
        var key := ObjectKey(guildId, namespace, hash);
        (Store(s.rows + [Row(newId, guildId, namespace, key, hash, |body|, 1, false)],
               Accounting(s.usage, guildId, |body|, 1),
               s.bytes[key := body]),
         Ok(Ref(newId, false)))
  }

  /** The row is marked, its reference and its share of the usage released. */
  function Released(s: Store, i: nat): Store
    requires i < |s.rows|
  {
    var row := s.rows[i].(deleted := true, refCount := s.rows[i].refCount - 1);
    s.(rows := s.rows[i := row], usage := Accounting(s.usage, row.guildId, -(row.size as int), -1))
  }

  /** The scope is the guild the caller asks for, if it asks for one. */
  function Delete(s: Store, id: string, scope: Option<Option<string>>): (Store, Result<(), StorageError>) {
    var found := FindById(s.rows, id);
    if found.None? || (scope.Some? && s.rows[found.value].guildId != scope.value) then (s, Err(NotFound))
    else (Released(s, found.value), Ok(()))
  }

  function GetBuffer(s: Store, id: string): Result<Bytes, StorageError> {
    var found := FindById(s.rows, id);
    if found.None? || s.rows[found.value].key !in s.bytes then Err(NotFound) else Ok(s.bytes[s.rows[found.value].key])
  }

  // ---- what is conserved ----

  predicate Counted(row: Row, guild: string) {
    !row.deleted && row.guildId == Some(guild)
  }

  /** The bytes and the number of a guild's live rows. */
  function Live(rows: seq<Row>, guild: string): Usage {
    if rows == [] then Usage(0, 0)
    else
      var last, rest := rows[|rows| - 1], Live(rows[..|rows| - 1], guild);
      if Counted(last, guild) then Usage(rest.usedBytes + last.size, rest.objectCount + 1) else rest
  }

  ghost predicate UniqueIds(rows: seq<Row>) {
    forall i, j :: 0 <= i < j < |rows| ==> rows[i].id != rows[j].id
  }

  /** At most one live row for the same bytes of a guild in a namespace. */
  ghost predicate Deduped(rows: seq<Row>) {
    forall i, j :: 0 <= i < j < |rows| && !rows[j].deleted ==>
      !Holds(rows[i], rows[j].guildId, rows[j].namespace, rows[j].contentHash)
  }

  /** The row's bytes are in the driver, and they are the bytes that were hashed. */
  ghost predicate Backed(h: Bytes -> string, bytes: map<string, Bytes>, row: Row) {
    && row.key == ObjectKey(row.guildId, row.namespace, row.contentHash)
    && row.key in bytes
    && h(bytes[row.key]) == row.contentHash
    && row.size == |bytes[row.key]|
  }

  ghost predicate AllBacked(h: Bytes -> string, rows: seq<Row>, bytes: map<string, Bytes>) {
    forall i :: 0 <= i < |rows| ==> Backed(h, bytes, rows[i])
  }

  ghost predicate UsageExact(s: Store) {
    && (forall g :: g != "" ==> UsageOf(s, g) == Live(s.rows, g))
    && "" !in s.usage
  }

  ghost predicate WithinQuota(rows: seq<Row>, quota: string -> nat) {
    forall g :: g != "" && quota(g) > 0 ==> Live(rows, g).usedBytes <= quota(g)
  }

  ghost predicate References(rows: seq<Row>) {
    forall i :: 0 <= i < |rows| ==> if rows[i].deleted then rows[i].refCount >= 0 else rows[i].refCount >= 1
  }

  ghost predicate InOrder(h: Bytes -> string, quota: string -> nat, s: Store) {
    && UniqueIds(s.rows) && Deduped(s.rows) && References(s.rows)
    && AllBacked(h, s.rows, s.bytes) && UsageExact(s) && WithinQuota(s.rows, quota)
  }

  lemma {:induction false} LiveUpdate(rows: seq<Row>, i: nat, row: Row, guild: string)
    requires i < |rows| && row.guildId == rows[i].guildId && row.size == rows[i].size
    ensures var before, after := Live(rows, guild), Live(rows[i := row], guild);
            var lost, gained := Counted(rows[i], guild), Counted(row, guild);
            && after.objectCount == before.objectCount - (if lost then 1 else 0) + (if gained then 1 else 0)
            && after.usedBytes == before.usedBytes - (if lost then row.size else 0) + (if gained then row.size else 0)
  {
    var n := |rows| - 1;
    if i < n {
      LiveUpdate(rows[..n], i, row, guild);
      assert rows[i := row][..n] == rows[..n][i := row];
    } else {
      assert rows[i := row][..n] == rows[..n];
    }
  }

  lemma {:induction false} LiveAppend(rows: seq<Row>, row: Row, guild: string)
    ensures var before := Live(rows, guild);
            Live(rows + [row], guild) == if Counted(row, guild) then Usage(before.usedBytes + row.size, before.objectCount + 1) else before
  {
    assert (rows + [row])[..|rows|] == rows;
  }

  /** Equal keys have equal hashes, even where a guild's name runs into the path. */
  lemma {:induction false} KeyFixesHash(a: Option<string>, n: string, x: string, b: Option<string>, m: string, y: string)
    requires ObjectKey(a, n, x) == ObjectKey(b, m, y) && '/' !in x && '/' !in y
    ensures x == y
  {
    var p := (if a.Some? then a.value else "global") + "/" + n;
    var q := (if b.Some? then b.value else "global") + "/" + m;
    LastSlash(p, x, q, y);
  }

  lemma {:induction false} NoSlashAfter(p: string, x: string)
    requires '/' !in x
    ensures var s := p + "/" + x; s[|p|] == '/' && forall i :: |p| < i < |s| ==> s[i] != '/'
  {
    var s := p + "/" + x;
    assert forall i :: |p| < i < |s| ==> s[i] == x[i - |p| - 1];
  }

  lemma {:induction false} LastSlash(p: string, x: string, q: string, y: string)
    requires p + "/" + x == q + "/" + y && '/' !in x && '/' !in y
    ensures x == y
  {
    NoSlashAfter(p, x);
    NoSlashAfter(q, y);
    assert |p| == |q|;
    SplitEqual(p + "/", x, q + "/", y);
  }

  // ---- each operation ----

  lemma {:induction false} DedupedPut(h: Bytes -> string, quota: string -> nat, s: Store, i: nat, row: Row)
    requires InOrder(h, quota, s) && i < |s.rows| && !s.rows[i].deleted
    requires row == s.rows[i].(refCount := s.rows[i].refCount + 1)
    ensures InOrder(h, quota, s.(rows := s.rows[i := row]))
  {
    var after := s.(rows := s.rows[i := row]);
    forall g ensures Live(after.rows, g) == Live(s.rows, g) && UsageOf(after, g) == UsageOf(s, g) {
      LiveUpdate(s.rows, i, row, g);
    }
  }

  lemma {:induction false} FreshKeepsBacked(h: Bytes -> string, s: Store, row: Row, body: Bytes)
    requires ContentHash(h) && AllBacked(h, s.rows, s.bytes)
    requires row.contentHash == h(body) && row.size == |body| && row.key == ObjectKey(row.guildId, row.namespace, h(body))
    ensures AllBacked(h, s.rows + [row], s.bytes[row.key := body])
  {
    forall i | 0 <= i < |s.rows| ensures Backed(h, s.bytes[row.key := body], s.rows[i]) {
      var other := s.rows[i];
      assert Backed(h, s.bytes, other);
      if other.key == row.key {
        KeyFixesHash(other.guildId, other.namespace, other.contentHash, row.guildId, row.namespace, row.contentHash);
      }
    }
  }

  /** What storing a fresh row adds to the usage kept for one guild. */
  lemma {:induction false} FreshUsageOf(s: Store, row: Row, bytes: map<string, Bytes>, g: string)
    requires g != "" && UsageOf(s, g) == Live(s.rows, g) && !row.deleted
    ensures var after := Store(s.rows + [row], Accounting(s.usage, row.guildId, row.size, 1), bytes);
      UsageOf(after, g) == Live(after.rows, g)
  {
    var usage, before := Accounting(s.usage, row.guildId, row.size, 1), UsageOf(s, g);
    LiveAppend(s.rows, row, g);
    if Counted(row, g) {
      assert usage == AddUsage(s.usage, g, row.size, 1);
      assert usage[g] == Usage(before.usedBytes + row.size, before.objectCount + 1);
    } else {
      assert g in usage <==> g in s.usage;
      assert g in usage ==> usage[g] == s.usage[g];
    }
  }

  lemma {:induction false} FreshUsage(s: Store, row: Row, bytes: map<string, Bytes>)
    requires UsageExact(s) && !row.deleted
    ensures UsageExact(Store(s.rows + [row], Accounting(s.usage, row.guildId, row.size, 1), bytes))
  {
    var after := Store(s.rows + [row], Accounting(s.usage, row.guildId, row.size, 1), bytes);
    forall g | g != "" ensures UsageOf(after, g) == Live(after.rows, g) {
      FreshUsageOf(s, row, bytes, g);
    }
    assert "" !in after.usage;
  }

  lemma {:induction false} FreshQuota(s: Store, quota: string -> nat, row: Row)
    requires UsageExact(s) && WithinQuota(s.rows, quota) && !OverQuota(s, quota, row.guildId, row.size)
    ensures WithinQuota(s.rows + [row], quota)
  {
    forall g | g != "" && quota(g) > 0 ensures Live(s.rows + [row], g).usedBytes <= quota(g) {
      LiveAppend(s.rows, row, g);
      assert UsageOf(s, g) == Live(s.rows, g);
    }
  }

  lemma {:induction false} FreshRows(rows: seq<Row>, row: Row)
    requires UniqueIds(rows) && Deduped(rows) && References(rows)
    requires !row.deleted && row.refCount == 1 && forall i :: 0 <= i < |rows| ==> rows[i].id != row.id
    requires forall i :: 0 <= i < |rows| ==> !Holds(rows[i], row.guildId, row.namespace, row.contentHash)
    ensures UniqueIds(rows + [row]) && Deduped(rows + [row]) && References(rows + [row])
  {
  }

  lemma {:induction false} FreshKeeps(h: Bytes -> string, quota: string -> nat, s: Store, row: Row, body: Bytes)
    requires ContentHash(h) && InOrder(h, quota, s)
    requires row == Row(row.id, row.guildId, row.namespace, ObjectKey(row.guildId, row.namespace, h(body)), h(body), |body|, 1, false)
    requires !OverQuota(s, quota, row.guildId, |body|) && forall i :: 0 <= i < |s.rows| ==> s.rows[i].id != row.id
    requires forall i :: 0 <= i < |s.rows| ==> !Holds(s.rows[i], row.guildId, row.namespace, h(body))
    ensures InOrder(h, quota, Store(s.rows + [row], Accounting(s.usage, row.guildId, |body|, 1), s.bytes[row.key := body]))
  {
    FreshRows(s.rows, row);
    FreshKeepsBacked(h, s, row, body);
    FreshUsage(s, row, s.bytes[row.key := body]);
    FreshQuota(s, quota, row);
  }

  lemma {:induction false} PutKeeps(
      h: Bytes -> string, quota: string -> nat, s: Store,
      guildId: Option<string>, namespace: string, body: Bytes, newId: string)
    requires ContentHash(h) && InOrder(h, quota, s) && forall i :: 0 <= i < |s.rows| ==> s.rows[i].id != newId
    ensures InOrder(h, quota, Put(h, quota, s, guildId, namespace, body, newId).0)
  {
    var hash, after := h(body), Put(h, quota, s, guildId, namespace, body, newId).0;
    var found := FindByHash(s.rows, guildId, namespace, hash);
    if OverQuota(s, quota, guildId, |body|) {
      assert after == s;
    } else if found.Some? {
      var row := s.rows[found.value].(refCount := s.rows[found.value].refCount + 1);
      assert after == s.(rows := s.rows[found.value := row]);
      DedupedPut(h, quota, s, found.value, row);
    } else {
      var row := Row(newId, guildId, namespace, ObjectKey(guildId, namespace, hash), hash, |body|, 1, false);
      assert after == Store(s.rows + [row], Accounting(s.usage, guildId, |body|, 1), s.bytes[row.key := body]);
      FreshKeeps(h, quota, s, row, body);
    }
  }

  lemma {:induction false} DeleteUsage(s: Store, i: nat)
    requires UsageExact(s) && i < |s.rows| && !s.rows[i].deleted
    ensures UsageExact(Released(s, i))
    ensures forall g :: Live(Released(s, i).rows, g).usedBytes <= Live(s.rows, g).usedBytes
  {
    var after := Released(s, i);
    forall g ensures g != "" ==> UsageOf(after, g) == Live(after.rows, g)
      ensures Live(after.rows, g).usedBytes <= Live(s.rows, g).usedBytes
    {
      LiveUpdate(s.rows, i, after.rows[i], g);
      if g != "" {
        assert UsageOf(s, g) == Live(s.rows, g);
        if Counted(s.rows[i], g) {
          CountedHasUsage(s, i, g);
        }
      }
    }
  }

  /** A guild with a live row has its usage on record. */
  lemma {:induction false} CountedHasUsage(s: Store, i: nat, g: string)
    requires UsageExact(s) && i < |s.rows| && Counted(s.rows[i], g) && g != ""
    ensures g in s.usage
  {
    LiveAtLeast(s.rows, i, g);
  }

  lemma {:induction false} LiveAtLeast(rows: seq<Row>, i: nat, g: string)
    requires i < |rows| && Counted(rows[i], g)
    ensures Live(rows, g).objectCount >= 1
  {
    LiveNonNegative(rows[..|rows| - 1], g);
    if i < |rows| - 1 {
      LiveAtLeast(rows[..|rows| - 1], i, g);
    }
  }

  lemma {:induction false} LiveNonNegative(rows: seq<Row>, g: string)
    ensures Live(rows, g).objectCount >= 0 && Live(rows, g).usedBytes >= 0
  {
    if rows != [] {
      LiveNonNegative(rows[..|rows| - 1], g);
    }
  }

  lemma {:induction false} DeleteRows(s: Store, i: nat)
    requires UniqueIds(s.rows) && Deduped(s.rows) && References(s.rows) && i < |s.rows| && !s.rows[i].deleted
    ensures var after := Released(s, i).rows; UniqueIds(after) && Deduped(after) && References(after)
  {
  }

  lemma {:induction false} LessIsWithinQuota(rows: seq<Row>, after: seq<Row>, quota: string -> nat)
    requires WithinQuota(rows, quota) && forall g :: Live(after, g).usedBytes <= Live(rows, g).usedBytes
    ensures WithinQuota(after, quota)
  {
    forall g | g != "" && quota(g) > 0 ensures Live(after, g).usedBytes <= quota(g) {
      assert Live(after, g).usedBytes <= Live(rows, g).usedBytes;
    }
  }

  lemma {:induction false} DeleteBacked(h: Bytes -> string, s: Store, i: nat)
    requires AllBacked(h, s.rows, s.bytes) && i < |s.rows|
    ensures AllBacked(h, Released(s, i).rows, s.bytes)
  {
    assert Backed(h, s.bytes, s.rows[i]);
  }

  lemma {:induction false} ReleasedKeeps(h: Bytes -> string, quota: string -> nat, s: Store, i: nat)
    requires InOrder(h, quota, s) && i < |s.rows| && !s.rows[i].deleted
    ensures InOrder(h, quota, Released(s, i))
  {
    DeleteRows(s, i);
    DeleteBacked(h, s, i);
    DeleteUsage(s, i);
    LessIsWithinQuota(s.rows, Released(s, i).rows, quota);
  }

  lemma {:induction false} DeleteKeeps(h: Bytes -> string, quota: string -> nat, s: Store, id: string, scope: Option<Option<string>>)
    requires InOrder(h, quota, s)
    ensures InOrder(h, quota, Delete(s, id, scope).0)
  {
    var found := FindById(s.rows, id);
    if found.Some? {
      ReleasedKeeps(h, quota, s, found.value);
    }
  }

  // ---- runs ----

  datatype Op =
    | OpPut(guildId: Option<string>, namespace: string, body: Bytes, newId: string)
    | OpDelete(id: string, scope: Option<Option<string>>)

  function Apply(h: Bytes -> string, quota: string -> nat, s: Store, op: Op): Store {
    match op
    case OpPut(guildId, namespace, body, newId) => Put(h, quota, s, guildId, namespace, body, newId).0
    case OpDelete(id, scope) => Delete(s, id, scope).0
  }

  /** A new row gets an id no row has. */
  ghost predicate Legal(s: Store, op: Op) {
    op.OpPut? ==> forall i :: 0 <= i < |s.rows| ==> s.rows[i].id != op.newId
  }

  ghost predicate IsRun(h: Bytes -> string, quota: string -> nat, states: seq<Store>, ops: seq<Op>) {
    && |states| == |ops| + 1
    && states[0] == Store([], map[], map[])
    && forall i {:trigger ops[i]} :: 0 <= i < |ops| ==> Legal(states[i], ops[i]) && states[i + 1] == Apply(h, quota, states[i], ops[i])
  }

  lemma {:induction false} StepKeeps(h: Bytes -> string, quota: string -> nat, s: Store, op: Op)
    requires ContentHash(h) && InOrder(h, quota, s) && Legal(s, op)
    ensures InOrder(h, quota, Apply(h, quota, s, op))
  {
    match op
    case OpPut(guildId, namespace, body, newId) => PutKeeps(h, quota, s, guildId, namespace, body, newId);
    case OpDelete(id, scope) => DeleteKeeps(h, quota, s, id, scope);
  }

  lemma {:induction false} EveryRunIsInOrder(
      h: Bytes -> string, quota: string -> nat, states: seq<Store>, ops: seq<Op>, i: nat)
    requires ContentHash(h) && IsRun(h, quota, states, ops) && i < |states|
    ensures InOrder(h, quota, states[i])
  {
    if i > 0 {
      EveryRunIsInOrder(h, quota, states, ops, i - 1);
      assert Legal(states[i - 1], ops[i - 1]);
      StepKeeps(h, quota, states[i - 1], ops[i - 1]);
    }
  }

  /** In every run a guild's usage is the total of its live rows and never above a positive
      quota, and its live rows hold no bytes twice in a namespace. The usage is exact for
      the guild with the empty name, too, exactly when that has no live rows. */
  lemma {:induction false} UsageIsExactExactlyWhen(
      h: Bytes -> string, quota: string -> nat, states: seq<Store>, ops: seq<Op>, i: nat, guild: string)
    requires ContentHash(h) && IsRun(h, quota, states, ops) && i < |states|
    ensures UsageOf(states[i], guild) == Live(states[i].rows, guild)
       <==> guild != "" || Live(states[i].rows, guild).objectCount == 0
    ensures guild != "" && quota(guild) > 0 ==> Live(states[i].rows, guild).usedBytes <= quota(guild)
    ensures Deduped(states[i].rows)
  {
    EveryRunIsInOrder(h, quota, states, ops, i);
    NoneLive(states[i].rows, guild);
  }

  lemma {:induction false} NoneLive(rows: seq<Row>, g: string)
    ensures Live(rows, g).objectCount == 0 ==> Live(rows, g) == Usage(0, 0)
  {
    if rows != [] {
      LiveNonNegative(rows[..|rows| - 1], g);
      NoneLive(rows[..|rows| - 1], g);
    }
  }

  /** A guild with an empty name is checked against its quota, but nothing it stores is
      ever counted: two objects that fit singly exceed the quota together. */
  lemma {:induction false} EmptyNameEscapesQuota(h: Bytes -> string, quota: string -> nat, a: Bytes, b: Bytes)
    requires ContentHash(h) && quota("") == 1 && |a| == |b| == 1 && a != b
    ensures var s1 := Put(h, quota, Store([], map[], map[]), Some(""), "x", a, "1").0;
            var s2 := Put(h, quota, s1, Some(""), "x", b, "2").0;
            Live(s2.rows, "").usedBytes == 2
  {
    var s0 := Store([], map[], map[]);
    var s1 := Put(h, quota, s0, Some(""), "x", a, "1").0;
    var r1 := Row("1", Some(""), "x", ObjectKey(Some(""), "x", h(a)), h(a), 1, 1, false);
    var r2 := Row("2", Some(""), "x", ObjectKey(Some(""), "x", h(b)), h(b), 1, 1, false);
    assert FindByHash(s0.rows, Some(""), "x", h(a)) == None;
    assert s1.rows == [r1];
    assert FindByHash(s1.rows, Some(""), "x", h(b)) == None;
    assert Put(h, quota, s1, Some(""), "x", b, "2").0.rows == [r1] + [r2];
    LiveAppend([], r1, "");
    LiveAppend([r1], r2, "");
    assert [] + [r1] == [r1];
  }

  // ---- the bytes ----

  /** A live object has the bytes that hash to its row's hash. */
  lemma {:induction false} LiveBytes(h: Bytes -> string, quota: string -> nat, s: Store, i: nat, body: Bytes)
    requires ContentHash(h) && InOrder(h, quota, s) && i < |s.rows| && !s.rows[i].deleted
    requires s.rows[i].contentHash == h(body)
    ensures GetBuffer(s, s.rows[i].id) == Ok(body)
  {
    var found := FindById(s.rows, s.rows[i].id);
    assert found == Some(i);
    assert Backed(h, s.bytes, s.rows[i]);
  }

  /** The row is live and of the bytes with the hash in the guild's namespace. */
  ghost predicate IsStoredAs(row: Row, guildId: Option<string>, namespace: string, hash: string) {
    !row.deleted && row.guildId == guildId && row.namespace == namespace && row.contentHash == hash
  }

  /** Storing returns an object of the guild's namespace whose bytes are those stored, and
      says that they were there exactly when they were. */
  lemma {:induction false} PutThenGet(
      h: Bytes -> string, quota: string -> nat, s: Store,
      guildId: Option<string>, namespace: string, body: Bytes, newId: string)
    requires ContentHash(h) && InOrder(h, quota, s) && forall i :: 0 <= i < |s.rows| ==> s.rows[i].id != newId
    requires Put(h, quota, s, guildId, namespace, body, newId).1.Ok?
    ensures var (after, ref) := Put(h, quota, s, guildId, namespace, body, newId);
            && GetBuffer(after, ref.value.id) == Ok(body)
            && (ref.value.deduped <==> exists i :: 0 <= i < |s.rows| && IsStoredAs(s.rows[i], guildId, namespace, h(body)))
            && exists i :: 0 <= i < |after.rows| && after.rows[i].id == ref.value.id
                 && IsStoredAs(after.rows[i], guildId, namespace, h(body))
  {
    var (after, ref) := Put(h, quota, s, guildId, namespace, body, newId);
    PutKeeps(h, quota, s, guildId, namespace, body, newId);
    var found := FindByHash(s.rows, guildId, namespace, h(body));
    LiveBytes(h, quota, after, if found.Some? then found.value else |s.rows|, body);
    assert IsStoredAs(after.rows[if found.Some? then found.value else |s.rows|], guildId, namespace, h(body));
    assert forall i :: 0 <= i < |s.rows| ==> (IsStoredAs(s.rows[i], guildId, namespace, h(body)) ==> Holds(s.rows[i], guildId, namespace, h(body)));
  }

  /** What a fresh object is filed as. */
  lemma {:induction false} FreshRowIs(
      h: Bytes -> string, quota: string -> nat, s: Store, guildId: Option<string>, namespace: string, body: Bytes, newId: string)
    requires Put(h, quota, s, guildId, namespace, body, newId).1 == Ok(Ref(newId, false))
    ensures var key := (if guildId.None? then "global" else guildId.value) + "/" + namespace + "/" + h(body);
      var after := Put(h, quota, s, guildId, namespace, body, newId).0;
      after.rows == s.rows + [Row(newId, guildId, namespace, key, h(body), |body|, 1, false)] && after.bytes == s.bytes[key := body]
  {
  }

  /** No operation changes the bytes of an object that is live before and after it. */
  lemma {:induction false} BytesStay(h: Bytes -> string, quota: string -> nat, s: Store, op: Op, id: string)
    requires ContentHash(h) && InOrder(h, quota, s) && Legal(s, op)
    requires FindById(s.rows, id).Some? && FindById(Apply(h, quota, s, op).rows, id).Some?
    ensures GetBuffer(Apply(h, quota, s, op), id) == GetBuffer(s, id)
  {
    var after := Apply(h, quota, s, op);
    StepKeeps(h, quota, s, op);
    var i, j := FindById(s.rows, id).value, FindById(after.rows, id).value;
    assert Backed(h, s.bytes, s.rows[i]);
    assert after.rows[i].id == id;
    assert i == j && after.rows[j].contentHash == s.rows[i].contentHash;
    LiveBytes(h, quota, s, i, s.bytes[s.rows[i].key]);
    LiveBytes(h, quota, after, j, s.bytes[s.rows[i].key]);
  }

  /** The operation stores the bytes and returns the id. */
  predicate StoresAs(h: Bytes -> string, quota: string -> nat, s: Store, op: Op, id: string, body: Bytes) {
    op.OpPut? && op.body == body &&
    var r := Put(h, quota, s, op.guildId, op.namespace, body, op.newId).1;
    r.Ok? && r.value.id == id
  }

  lemma {:induction false} StoresThenGet(h: Bytes -> string, quota: string -> nat, s: Store, op: Op, id: string, body: Bytes)
    requires ContentHash(h) && InOrder(h, quota, s) && Legal(s, op) && StoresAs(h, quota, s, op, id, body)
    ensures GetBuffer(Apply(h, quota, s, op), id) == Ok(body)
  {
    PutThenGet(h, quota, s, op.guildId, op.namespace, body, op.newId);
  }

  lemma {:induction false} StillRead(h: Bytes -> string, quota: string -> nat, s: Store, op: Op, id: string, body: Bytes)
    requires ContentHash(h) && InOrder(h, quota, s) && Legal(s, op) && GetBuffer(s, id) == Ok(body)
    requires FindById(Apply(h, quota, s, op).rows, id).Some?
    ensures GetBuffer(Apply(h, quota, s, op), id) == Ok(body)
  {
    BytesStay(h, quota, s, op, id);
  }

  lemma {:induction false} RunStep(h: Bytes -> string, quota: string -> nat, states: seq<Store>, ops: seq<Op>, i: nat)
    requires IsRun(h, quota, states, ops) && i < |ops|
    ensures Legal(states[i], ops[i]) && states[i + 1] == Apply(h, quota, states[i], ops[i])
  {
    assert Legal(states[i], ops[i]);
  }

  lemma {:induction false} RunStillRead(
      h: Bytes -> string, quota: string -> nat, states: seq<Store>, ops: seq<Op>, k: nat, id: string, body: Bytes)
    requires ContentHash(h) && IsRun(h, quota, states, ops) && k < |ops|
    requires GetBuffer(states[k], id) == Ok(body) && FindById(states[k + 1].rows, id).Some?
    ensures GetBuffer(states[k + 1], id) == Ok(body)
  {
    EveryRunIsInOrder(h, quota, states, ops, k);
    RunStep(h, quota, states, ops, k);
    StillRead(h, quota, states[k], ops[k], id, body);
  }

  lemma {:induction false} RunStoresThenGet(
      h: Bytes -> string, quota: string -> nat, states: seq<Store>, ops: seq<Op>, k: nat, id: string, body: Bytes)
    requires ContentHash(h) && IsRun(h, quota, states, ops) && k < |ops|
    requires StoresAs(h, quota, states[k], ops[k], id, body)
    ensures GetBuffer(states[k + 1], id) == Ok(body)
  {
    EveryRunIsInOrder(h, quota, states, ops, k);
    RunStep(h, quota, states, ops, k);
    StoresThenGet(h, quota, states[k], ops[k], id, body);
  }

  /** Whatever a run does after a store, reading the object returned gives the stored bytes
      for as long as it stays live. */
  lemma {:induction false} StoredBytesAreRead(
      h: Bytes -> string, quota: string -> nat, states: seq<Store>, ops: seq<Op>, i: nat, j: nat, id: string, body: Bytes)
    requires ContentHash(h) && IsRun(h, quota, states, ops) && i < j < |states|
    requires StoresAs(h, quota, states[i], ops[i], id, body)
    requires forall k :: i < k <= j ==> FindById(states[k].rows, id).Some?
    ensures GetBuffer(states[j], id) == Ok(body)
    decreases j
  {
    if j == i + 1 {
      RunStoresThenGet(h, quota, states, ops, i, id, body);
    } else {
      var k := j - 1;
      StoredBytesAreRead(h, quota, states, ops, i, k, id, body);
      assert FindById(states[k + 1].rows, id).Some?;
      RunStillRead(h, quota, states, ops, k, id, body);
    }
  }

  // ---- references ----

  /** What the collector of orphaned bytes looks for. */
  predicate Orphaned(row: Row) {
    row.deleted && row.refCount <= 0
  }

  /** The operation stores bytes successfully and returns the id. */
  predicate Returns(h: Bytes -> string, quota: string -> nat, s: Store, op: Op, id: string) {
    op.OpPut? &&
    var r := Put(h, quota, s, op.guildId, op.namespace, op.body, op.newId).1;
    r.Ok? && r.value.id == id
  }

  /** How many of the first `n` operations stored bytes and returned the id. */
  ghost function TimesStored(
      h: Bytes -> string, quota: string -> nat, states: seq<Store>, ops: seq<Op>, n: nat, id: string): nat
    requires n <= |ops| <= |states|
  {
    if n == 0 then 0
    else TimesStored(h, quota, states, ops, n - 1, id) + (if Returns(h, quota, states[n - 1], ops[n - 1], id) then 1 else 0)
  }

  /** The references a row has and the one its deletion released. */
  function Taken(row: Row): int {
    row.refCount + if row.deleted then 1 else 0
  }

  predicate HasId(rows: seq<Row>, id: string) {
    exists k :: 0 <= k < |rows| && rows[k].id == id
  }

  /** Each row's count grows exactly when its id is returned. */
  lemma {:induction false} StepTaken(h: Bytes -> string, quota: string -> nat, s: Store, op: Op, k: nat)
    requires UniqueIds(s.rows) && Legal(s, op) && k < |Apply(h, quota, s, op).rows|
    ensures var after := Apply(h, quota, s, op).rows;
      var returned := if Returns(h, quota, s, op, after[k].id) then 1 else 0;
      && |s.rows| <= |after|
      && Taken(after[k]) == (if k < |s.rows| then Taken(s.rows[k]) else 0) + returned
      && (if k < |s.rows| then after[k].id == s.rows[k].id else !HasId(s.rows, after[k].id))
  {
  }

  lemma {:induction false} ReturnedHasRow(h: Bytes -> string, quota: string -> nat, s: Store, op: Op, id: string)
    requires Legal(s, op) && (Returns(h, quota, s, op, id) || HasId(s.rows, id))
    ensures HasId(Apply(h, quota, s, op).rows, id)
  {
    var after := Apply(h, quota, s, op).rows;
    if HasId(s.rows, id) {
      var k :| 0 <= k < |s.rows| && s.rows[k].id == id;
      assert after[k].id == id;
    } else {
      assert after[|s.rows|].id == id;
    }
  }

  /** An id without a row was never returned. */
  lemma {:induction false} NoRowNoStore(
      h: Bytes -> string, quota: string -> nat, states: seq<Store>, ops: seq<Op>, n: nat, id: string)
    requires IsRun(h, quota, states, ops) && n < |states| && !HasId(states[n].rows, id)
    ensures TimesStored(h, quota, states, ops, n, id) == 0
  {
    if n > 0 {
      RunStep(h, quota, states, ops, n - 1);
      if Returns(h, quota, states[n - 1], ops[n - 1], id) || HasId(states[n - 1].rows, id) {
        ReturnedHasRow(h, quota, states[n - 1], ops[n - 1], id);
      }
      NoRowNoStore(h, quota, states, ops, n - 1, id);
    }
  }

  /** In every run the references of a row, with the one its deletion released, are as many
      as there were successful stores that returned its id. */
  lemma {:induction false} ReferencesCountStores(
      h: Bytes -> string, quota: string -> nat, states: seq<Store>, ops: seq<Op>, n: nat, k: nat)
    requires ContentHash(h) && IsRun(h, quota, states, ops) && n < |states| && k < |states[n].rows|
    ensures Taken(states[n].rows[k]) == TimesStored(h, quota, states, ops, n, states[n].rows[k].id)
  {
    if n > 0 {
      var s, op, row := states[n - 1], ops[n - 1], states[n].rows[k];
      RunStep(h, quota, states, ops, n - 1);
      EveryRunIsInOrder(h, quota, states, ops, n - 1);
      StepTaken(h, quota, s, op, k);
      if k < |s.rows| {
        ReferencesCountStores(h, quota, states, ops, n - 1, k);
      } else {
        NoRowNoStore(h, quota, states, ops, n - 1, row.id);
      }
    }
  }

  /** In every run the collector finds a row exactly when it is deleted and its bytes were
      stored once: of a row that a second store shared, one deletion takes the object from
      every holder and leaves a reference that, as `DeletedStays` says, nothing releases. */
  lemma {:induction false} OrphanedExactlyWhen(
      h: Bytes -> string, quota: string -> nat, states: seq<Store>, ops: seq<Op>, n: nat, k: nat)
    requires ContentHash(h) && IsRun(h, quota, states, ops) && n < |states| && k < |states[n].rows|
    ensures var row := states[n].rows[k];
      Orphaned(row) <==> row.deleted && TimesStored(h, quota, states, ops, n, row.id) == 1
  {
    ReferencesCountStores(h, quota, states, ops, n, k);
    EveryRunIsInOrder(h, quota, states, ops, n);
  }

  /** An object can be deleted exactly when it is live and, if a guild asks, that guild's. */
  lemma {:induction false} DeleteSucceedsExactlyWhen(s: Store, id: string, scope: Option<Option<string>>)
    requires UniqueIds(s.rows)
    ensures Delete(s, id, scope).1.Ok?
       <==> exists i :: 0 <= i < |s.rows| && s.rows[i].id == id && !s.rows[i].deleted
                        && (scope.None? || s.rows[i].guildId == scope.value)
    ensures Delete(s, id, scope).1.Err? ==> Delete(s, id, scope) == (s, Err(NotFound))
  {
    var found := FindById(s.rows, id);
    if i :| 0 <= i < |s.rows| && s.rows[i].id == id && !s.rows[i].deleted && (scope.None? || s.rows[i].guildId == scope.value) {
      assert found == Some(i);
    }
  }

  /** It then takes the object from its guild, with its bytes and no other object. */
  lemma {:induction false} DeletionReleases(
      h: Bytes -> string, quota: string -> nat, s: Store, id: string, scope: Option<Option<string>>, i: nat)
    requires InOrder(h, quota, s) && Delete(s, id, scope).1.Ok?
    requires i < |s.rows| && s.rows[i].id == id && !s.rows[i].deleted
    ensures var after := Delete(s, id, scope).0;
      && |after.rows| == |s.rows|
      && after.rows[i] == s.rows[i].(deleted := true, refCount := s.rows[i].refCount - 1)
      && (forall k :: 0 <= k < |s.rows| && k != i ==> after.rows[k] == s.rows[k])
      && (forall g :: g != "" ==>
            UsageOf(after, g).usedBytes == UsageOf(s, g).usedBytes - (if s.rows[i].guildId == Some(g) then s.rows[i].size else 0))
  {
    assert FindById(s.rows, id) == Some(i);
    DeleteUsage(s, i);
    forall g | g != ""
      ensures UsageOf(Released(s, i), g).usedBytes
           == UsageOf(s, g).usedBytes - (if s.rows[i].guildId == Some(g) then s.rows[i].size else 0)
    {
      LiveUpdate(s.rows, i, Released(s, i).rows[i], g);
      assert UsageOf(s, g) == Live(s.rows, g);
    }
  }

  function Held(rows: seq<Row>, guild: string): int {
    if guild == "" then 0 else Live(rows, guild).usedBytes
  }

  /** A store is refused exactly when the guild has a positive quota that its live objects
      and the new one would exceed, even where the bytes are there already. A guild with an
      empty name counts as having no objects. */
  lemma {:induction false} PutSucceedsExactlyWhen(
      h: Bytes -> string, quota: string -> nat, s: Store, guildId: Option<string>, namespace: string, body: Bytes, newId: string)
    requires InOrder(h, quota, s)
    ensures Put(h, quota, s, guildId, namespace, body, newId).1.Err?
       <==> guildId.Some? && quota(guildId.value) > 0 && Held(s.rows, guildId.value) + |body| > quota(guildId.value)
    ensures Put(h, quota, s, guildId, namespace, body, newId).1.Err? ==>
      Put(h, quota, s, guildId, namespace, body, newId).0 == s
  {
    if guildId.Some? && guildId.value != "" {
      assert UsageOf(s, guildId.value) == Live(s.rows, guildId.value);
    }
  }

  /** One deletion ends every holder's access, however often the bytes were stored. */
  lemma {:induction false} DeletionEndsAccess(
      h: Bytes -> string, quota: string -> nat, s: Store, id: string, scope: Option<Option<string>>)
    requires InOrder(h, quota, s) && Delete(s, id, scope).1.Ok?
    ensures var after := Delete(s, id, scope).0;
      after.rows[FindById(s.rows, id).value].deleted && GetBuffer(after, id) == Err(NotFound)
  {
    var i, after := FindById(s.rows, id).value, Delete(s, id, scope).0;
    assert forall k :: 0 <= k < |s.rows| && k != i ==> after.rows[k] == s.rows[k] && s.rows[k].id != id;
  }

  lemma {:induction false} DeletedStep(h: Bytes -> string, quota: string -> nat, s: Store, op: Op, k: nat)
    requires k < |s.rows| && s.rows[k].deleted
    ensures var after := Apply(h, quota, s, op).rows; k < |after| && after[k] == s.rows[k]
  {
    match op
    case OpPut(guildId, namespace, body, _) => assert FindByHash(s.rows, guildId, namespace, h(body)) != Some(k);
    case OpDelete(other, _) => assert FindById(s.rows, other) != Some(k);
  }

  /** In every run a deleted row never changes again: its references are never released. */
  lemma {:induction false} DeletedStays(
      h: Bytes -> string, quota: string -> nat, states: seq<Store>, ops: seq<Op>, i: nat, j: nat, k: nat)
    requires IsRun(h, quota, states, ops) && i <= j < |states|
    requires k < |states[i].rows| && states[i].rows[k].deleted
    ensures k < |states[j].rows| && states[j].rows[k] == states[i].rows[k]
    decreases j
  {
    if i < j {
      DeletedStays(h, quota, states, ops, i, j - 1, k);
      RunStep(h, quota, states, ops, j - 1);
      DeletedStep(h, quota, states[j - 1], ops[j - 1], k);
    }
  }

  // ---- the service ----

  class StorageService {
    const h: Bytes -> string
    const quota: string -> nat
    var rows: seq<Row>
    var usage: map<string, Usage>
    var bytes: map<string, Bytes>

    constructor (h: Bytes -> string, quota: string -> nat)
      ensures this.h == h && this.quota == quota && State() == Store([], map[], map[])
    {
      this.h, this.quota := h, quota;
      rows, usage, bytes := [], map[], map[];
    }

    function State(): Store
      reads this
    {
      Store(rows, usage, bytes)
    }

    method AssertWithinQuota(guildId: Option<string>, size: nat) returns (exceeded: Option<StorageError>)
      ensures exceeded == if OverQuota(State(), quota, guildId, size)
                          then Some(QuotaExceeded(UsageOf(State(), guildId.value).usedBytes + size)) else None
    {
      if guildId.None? || quota(guildId.value) == 0 {
        return None;
      }
      var snapshot := if guildId.value in usage then usage[guildId.value].usedBytes else 0;
      var projected := snapshot + size;
      if projected <= quota(guildId.value) {
        return None;
      }
      return Some(QuotaExceeded(projected));
    }

    method AddGuildUsage(guildId: Option<string>, bytesDelta: int, countDelta: int)
      modifies this`usage
      ensures usage == Accounting(old(usage), guildId, bytesDelta, countDelta)
    {
      if guildId.Some? && guildId.value != "" {
        var g := guildId.value;
        if g in usage {
          usage := usage[g := Usage(usage[g].usedBytes + bytesDelta, usage[g].objectCount + countDelta)];
        } else {
          usage := usage[g := Usage(bytesDelta, countDelta)];
        }
      }
    }

    method PutObject(guildId: Option<string>, namespace: string, body: Bytes, newId: string)
      returns (r: Result<Ref, StorageError>)
      modifies this`rows, this`usage, this`bytes
      ensures (State(), r) == Put(h, quota, old(State()), guildId, namespace, body, newId)
    {
      var contentHash := h(body);
      var key := ObjectKey(guildId, namespace, contentHash);
      var exceeded := AssertWithinQuota(guildId, |body|);
      if exceeded.Some? {
        return Err(exceeded.value);
      }
      var existing := FindByHash(rows, guildId, namespace, contentHash);
      if existing.Some? {
        var row := rows[existing.value];
        rows := rows[existing.value := row.(refCount := row.refCount + 1)];
        return Ok(Ref(row.id, true));
      }
      bytes := bytes[key := body];
      rows := rows + [Row(newId, guildId, namespace, key, contentHash, |body|, 1, false)];
      AddGuildUsage(guildId, |body|, 1);
      return Ok(Ref(newId, false));
    }

    method DeleteObject(id: string, scope: Option<Option<string>>) returns (r: Result<(), StorageError>)
      modifies this`rows, this`usage
      ensures (State(), r) == Delete(old(State()), id, scope)
    {
      var found := FindById(rows, id);
      if found.None? {
        return Err(NotFound);
      }
      var i := found.value;
      if scope.Some? && rows[i].guildId != scope.value {
        return Err(NotFound);
      }
      var row := rows[i];
      rows := rows[i := row.(deleted := true)];
      rows := rows[i := rows[i].(refCount := rows[i].refCount - 1)];
      AddGuildUsage(row.guildId, -(row.size as int), -1);
      assert rows == Released(old(State()), i).rows;
      return Ok(());
    }

    method Read(id: string) returns (r: Result<Bytes, StorageError>)
      ensures r == GetBuffer(State(), id)
    {
      var found := FindById(rows, id);
      if found.None? || rows[found.value].key !in bytes {
        return Err(NotFound);
      }
      return Ok(bytes[rows[found.value].key]);
    }
  }
}
