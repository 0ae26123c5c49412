/**
 Recurring schedules: rows in the database and the registry of repeatable jobs in the
 queue. The service, the worker and the reconciler change both; the theorems say what
 every call keeps, and what a reconcile pass establishes.
 */
module Scheduling {
  import opened Prelude

  // ---- data ----

  datatype Rule = Pattern(cron: string, tz: Option<string>) | Every(ms: int)

  /** The key of a repeatable job: two jobs share it only with the same id and rule. */
  datatype RepeatKey = RepeatKey(kind: string, id: string, rule: Rule)

  datatype Status = Pending | Active | Paused | Completed | Cancelled | Failed

  datatype RowType = Once | Recurring

  datatype BullId = Repeat(key: RepeatKey) | Job(jobId: string)

  datatype Row = Row(
    guildId: Option<string>, kind: string, rowType: RowType, status: Status, idempotencyKey: Option<string>,
    cron: Option<string>, everyMs: Option<int>, timezone: string, bullJobId: Option<BullId>, deleted: bool)

  /** Rows by id, and the repeatable jobs registered. */
  datatype Db = Db(rows: map<string, Row>, repeats: set<RepeatKey>)

  datatype ScheduleInput = ScheduleInput(
    guildId: Option<string>, kind: string, idempotencyKey: string,
    cron: Option<string>, everyMs: Option<int>, timezone: string)

  datatype ScheduleError = NotFound | BadRequest | UniqueViolation

  // ---- the operations, as functions ----

  function RuleOf(row: Row): Rule {
    if row.cron.Some? && row.cron.value != "" then Pattern(row.cron.value, Some(row.timezone))
    else Every(if row.everyMs.Some? then row.everyMs.value else 60000)
  }

  function KeyOf(id: string, row: Row): RepeatKey {
    RepeatKey(row.kind, id, RuleOf(row))
  }

  /** The repeatable job a recurring row remembers. */
  function Held(row: Row): Option<RepeatKey> {
    if row.bullJobId.Some? && row.rowType == Recurring && row.bullJobId.value.Repeat? then Some(row.bullJobId.value.key)
    else None
  }

  function Unqueued(repeats: set<RepeatKey>, row: Row): set<RepeatKey> {
    if Held(row).Some? then repeats - {Held(row).value} else repeats
  }

  function SoftDeleted(row: Row): Row {
    row.(deleted := true, status := Cancelled)
  }

  function NewRow(input: ScheduleInput): Row {
    Row(input.guildId, input.kind, Recurring, Active, Some(input.idempotencyKey),
        input.cron, input.everyMs, input.timezone, None, false)
  }

  /** The row is registered in the queue and remembers the key. */
  function Enqueued(db: Db, id: string): Db
    requires id in db.rows
  {
    var key := KeyOf(id, db.rows[id]);
    Db(db.rows[id := db.rows[id].(bullJobId := Some(Repeat(key)))], db.repeats + {key})
  }

  /** Which texts the tables take for the same: columns are compared by their collation. */
  type Collation = (string, string) -> bool

  predicate HasTuple(same: Collation, row: Row, input: ScheduleInput) {
    && row.guildId == input.guildId && same(row.kind, input.kind)
    && row.idempotencyKey.Some? && same(row.idempotencyKey.value, input.idempotencyKey)
  }

  /** A live row with the tuple, or none if there is none. */
  ghost predicate FoundByDedup(same: Collation, rows: map<string, Row>, input: ScheduleInput, existing: Option<string>) {
    match existing
    case None => forall id :: id in rows ==> !HasTuple(same, rows[id], input) || rows[id].deleted
    case Some(id) => id in rows && HasTuple(same, rows[id], input) && !rows[id].deleted
  }

  /** The unique key does not look at deletion, and lets absent guilds repeat. */
  ghost predicate TupleTaken(same: Collation, rows: map<string, Row>, input: ScheduleInput) {
    input.guildId.Some? && exists id :: id in rows && HasTuple(same, rows[id], input)
  }

  function WithoutExisting(db: Db, existing: Option<string>): Db
    requires existing.Some? ==> existing.value in db.rows
  {
    if existing.None? then db
    else
      var row := db.rows[existing.value];
      Db(db.rows[existing.value := SoftDeleted(row)], Unqueued(db.repeats, row))
  }

  ghost function ScheduleRecurring(same: Collation, db: Db, input: ScheduleInput, existing: Option<string>, newId: string): (Db, Option<ScheduleError>)
    requires existing.Some? ==> existing.value in db.rows
  {
    var cleared := WithoutExisting(db, existing);
    if TupleTaken(same, cleared.rows, input) then (cleared, Some(UniqueViolation))
    else (Enqueued(cleared.(rows := cleared.rows[newId := NewRow(input)]), newId), None)
  }

  predicate Findable(db: Db, id: string, guildId: Option<string>) {
    id in db.rows && !db.rows[id].deleted && db.rows[id].guildId == guildId
  }

  function Cancel(db: Db, id: string, guildId: Option<string>): (Db, Option<ScheduleError>) {
    if !Findable(db, id, guildId) then (db, Some(NotFound))
    else (Db(db.rows[id := SoftDeleted(db.rows[id])], Unqueued(db.repeats, db.rows[id])), None)
  }

  function Pause(db: Db, id: string, guildId: Option<string>): (Db, Option<ScheduleError>) {
    if !Findable(db, id, guildId) then (db, Some(NotFound))
    else if db.rows[id].rowType != Recurring then (db, Some(BadRequest))
    else
      var row := db.rows[id];
      (Db(db.rows[id := row.(status := Paused, bullJobId := None)], Unqueued(db.repeats, row)), None)
  }

  function Resume(db: Db, id: string, guildId: Option<string>): (Db, Option<ScheduleError>) {
    if !Findable(db, id, guildId) then (db, Some(NotFound))
    else if db.rows[id].status != Paused then (db, Some(BadRequest))
    else
      var queued := Enqueued(db, id);
      (queued.(rows := queued.rows[id := queued.rows[id].(status := Active)]), None)
  }

  /** What a run leaves in the row: a one-shot row that succeeds is completed, a run that
      fails its last attempt marks any row failed. */
  function Outcome(db: Db, id: string, attempt: int, maxAttempts: int, succeeded: bool): Db {
    if id !in db.rows then db
    else
      var row := db.rows[id];
      if succeeded then
        if !row.deleted && row.rowType == Once then db.(rows := db.rows[id := row.(status := Completed)]) else db
      else if attempt >= maxAttempts then db.(rows := db.rows[id := row.(status := Failed)])
      else db
  }

  /** The definition of a row edited in the database. */
  function Edited(db: Db, id: string, cron: Option<string>, everyMs: Option<int>, timezone: string): Db {
    if id !in db.rows then db
    else db.(rows := db.rows[id := db.rows[id].(cron := cron, everyMs := everyMs, timezone := timezone)])
  }

  /** The rows a guild's deletion takes with it. */
  predicate Affected(row: Row, guildId: string) {
    row.guildId == Some(guildId) && !row.deleted
  }

  function HeldBy(rows: map<string, Row>, guildId: string): set<RepeatKey> {
    set id | id in rows && Affected(rows[id], guildId) && Held(rows[id]).Some? :: Held(rows[id]).value
  }

  function GuildDeleted(db: Db, guildId: string): Db {
    Db(map id | id in db.rows :: if Affected(db.rows[id], guildId) then SoftDeleted(db.rows[id]) else db.rows[id],
       db.repeats - HeldBy(db.rows, guildId))
  }

  // ---- a reconcile pass ----

  /** A repeatable job as the queue lists it: the schedule's id may be missing. */
  datatype Listed = Listed(key: RepeatKey, id: Option<string>)

  /** The text of a job's key. */
  type KeyText = RepeatKey -> string

  /** What the pass files a job under. */
  function Index(text: KeyText, l: Listed): string {
    if l.id.Some? then l.id.value else text(l.key)
  }

  /** The last job listed under each index. */
  function ByScheduleId(text: KeyText, listing: seq<Listed>): map<string, Listed> {
    if listing == [] then map[]
    else
      var n := |listing| - 1;
      ByScheduleId(text, listing[..n])[Index(text, listing[n]) := listing[n]]
  }

  predicate HasDrifted(row: Row, existing: RepeatKey) {
    if row.cron.None? || row.cron.value == "" then false
    else
      || !existing.rule.Pattern?
      || existing.rule.cron != row.cron.value
      || (if existing.rule.tz.Some? then existing.rule.tz.value else "UTC") != row.timezone
  }

  predicate LiveRecurring(rows: map<string, Row>, id: string) {
    id in rows && rows[id].rowType == Recurring && !rows[id].deleted && rows[id].status == Active
  }

  function Lookup(byId: map<string, Listed>, id: string): Option<RepeatKey> {
    if id in byId then Some(byId[id].key) else None
  }

  /** One active row: registered if it is missing, registered anew if it has drifted. */
  function RowReconciled(db: Db, id: string, row: Row, existing: Option<RepeatKey>): Db {
    if existing.Some? && !HasDrifted(row, existing.value) then db
    else
      var key := KeyOf(id, row);
      Db(db.rows[id := row.(bullJobId := Some(Repeat(key)))],
         (if existing.Some? then db.repeats - {existing.value} else db.repeats) + {key})
  }

  /** The rows as they were selected, one after the other. */
  function RowsReconciled(db: Db, active: seq<string>, byId: map<string, Listed>): Db
    requires forall i :: 0 <= i < |active| ==> active[i] in db.rows
  {
    if active == [] then db
    else
      var n := |active| - 1;
      RowReconciled(RowsReconciled(db, active[..n], byId), active[n], db.rows[active[n]], Lookup(byId, active[n]))
  }

  /** The jobs that no active row claimed. */
  function Orphans(byId: map<string, Listed>, active: set<string>): set<RepeatKey> {
    set x | x in byId && x !in active :: byId[x].key
  }

  /** A pass: every active row, then the orphans. */
  function Pass(db: Db, active: seq<string>, byId: map<string, Listed>): Db
    requires forall i :: 0 <= i < |active| ==> active[i] in db.rows
  {
    var done := RowsReconciled(db, active, byId);
    done.(repeats := done.repeats - Orphans(byId, Elements(active)))
  }

  /** The row must be registered anew: it is not found, or not with its own rule. */
  predicate Stale(rows: map<string, Row>, byId: map<string, Listed>, id: string) {
    LiveRecurring(rows, id) && (id !in byId || HasDrifted(rows[id], byId[id].key))
  }

  /** The key is the one found for its active row, and has drifted. */
  predicate Replaced(rows: map<string, Row>, byId: map<string, Listed>, key: RepeatKey) {
    Lookup(byId, key.id) == Some(key) && Stale(rows, byId, key.id)
  }

  function LiveIds(rows: map<string, Row>): set<string> {
    set id | id in rows && LiveRecurring(rows, id)
  }

  /** The same pass at one stroke, without an order of the rows. */
  function Reconciled(db: Db, byId: map<string, Listed>): Db {
    var rows := map id | id in db.rows ::
      if Stale(db.rows, byId, id) then db.rows[id].(bullJobId := Some(Repeat(KeyOf(id, db.rows[id])))) else db.rows[id];
    var kept := set k | k in db.repeats && !Replaced(db.rows, byId, k);
    var added := set id | id in db.rows && Stale(db.rows, byId, id) :: KeyOf(id, db.rows[id]);
    Db(rows, kept + added - Orphans(byId, LiveIds(db.rows)))
  }

  // ---- what every call keeps ----

  /** A registered job belongs to a recurring row that is neither paused nor deleted and
      remembers exactly this job. */
  predicate Owned(rows: map<string, Row>, key: RepeatKey) {
    && key.id in rows
    && rows[key.id].rowType == Recurring
    && !rows[key.id].deleted
    && rows[key.id].status != Paused
    && rows[key.id].bullJobId == Some(Repeat(key))
    && rows[key.id].kind == key.kind
  }

  /** Paused rows are recurring, and a row only remembers jobs of its own. */
  predicate RowOk(id: string, row: Row) {
    && (row.status == Paused ==> row.rowType == Recurring)
    && (row.bullJobId.Some? && row.bullJobId.value.Repeat? ==> row.bullJobId.value.key.id == id)
  }

  ghost predicate InStep(db: Db) {
    && (forall k :: k in db.repeats ==> Owned(db.rows, k))
    && (forall id :: id in db.rows ==> RowOk(id, db.rows[id]))
  }

  /** Each schedule id has at most one repeatable job; no paused or deleted row has any. */
  lemma {:induction false} AtMostOneRepeatable(db: Db)
    requires InStep(db)
    ensures forall k, l :: k in db.repeats && l in db.repeats && k.id == l.id ==> k == l
    ensures forall k :: k in db.repeats ==>
              k.id in db.rows && !db.rows[k.id].deleted && db.rows[k.id].status != Paused
  {
    forall k, l | k in db.repeats && l in db.repeats && k.id == l.id ensures k == l {
      assert Owned(db.rows, k) && Owned(db.rows, l);
    }
  }

  /** Taking a row's job off the queue leaves no job with its id. */
  lemma {:induction false} RemovedFromQueue(db: Db, id: string)
    requires InStep(db) && id in db.rows
    ensures var left := Unqueued(db.repeats, db.rows[id]);
            left <= db.repeats && forall k :: k in left <==> k in db.repeats && k.id != id
  {
    var left := Unqueued(db.repeats, db.rows[id]);
    assert RowOk(id, db.rows[id]);
    forall k | k in db.repeats ensures k in left <==> k.id != id {
      assert Owned(db.rows, k);
    }
  }

  /** A row may change in any way once it has no job. */
  lemma {:induction false} RowWithoutJob(db: Db, id: string, row: Row, left: set<RepeatKey>)
    requires InStep(db) && RowOk(id, row) && left <= db.repeats && forall k :: k in left ==> k.id != id
    ensures InStep(Db(db.rows[id := row], left))
  {
    forall k | k in left ensures Owned(db.rows[id := row], k) {
      assert Owned(db.rows, k);
    }
  }

  /** A recurring row without a job may be registered. */
  lemma {:induction false} EnqueuedInStep(db: Db, id: string)
    requires InStep(db) && id in db.rows && db.rows[id].rowType == Recurring && !db.rows[id].deleted
    requires forall k :: k in db.repeats ==> k.id != id
    ensures forall status :: status != Paused ==>
              var q := Enqueued(db, id); InStep(q.(rows := q.rows[id := q.rows[id].(status := status)]))
  {
    var q := Enqueued(db, id);
    forall status: Status | status != Paused ensures InStep(q.(rows := q.rows[id := q.rows[id].(status := status)])) {
      var rows := q.rows[id := q.rows[id].(status := status)];
      forall k | k in q.repeats ensures Owned(rows, k) {
        assert k != KeyOf(id, db.rows[id]) ==> Owned(db.rows, k);
      }
    }
  }

  lemma {:induction false} ScheduleKeeps(same: Collation, db: Db, input: ScheduleInput, existing: Option<string>, newId: string)
    requires InStep(db) && newId !in db.rows && FoundByDedup(same, db.rows, input, existing)
    ensures InStep(ScheduleRecurring(same, db, input, existing, newId).0)
  {
    var cleared := WithoutExisting(db, existing);
    if existing.Some? {
      RemovedFromQueue(db, existing.value);
      assert RowOk(existing.value, db.rows[existing.value]);
      RowWithoutJob(db, existing.value, SoftDeleted(db.rows[existing.value]), cleared.repeats);
    }
    if !TupleTaken(same, cleared.rows, input) {
      forall k | k in cleared.repeats ensures k.id != newId {
        assert Owned(cleared.rows, k);
      }
      RowWithoutJob(cleared, newId, NewRow(input), cleared.repeats);
      var created := cleared.(rows := cleared.rows[newId := NewRow(input)]);
      EnqueuedInStep(created, newId);
      var q := Enqueued(created, newId);
      assert q == q.(rows := q.rows[newId := q.rows[newId].(status := Active)]);
    }
  }

  lemma {:induction false} CancelKeeps(db: Db, id: string, guildId: Option<string>)
    requires InStep(db)
    ensures InStep(Cancel(db, id, guildId).0)
  {
    if Findable(db, id, guildId) {
      RemovedFromQueue(db, id);
      RowWithoutJob(db, id, SoftDeleted(db.rows[id]), Unqueued(db.repeats, db.rows[id]));
    }
  }

  lemma {:induction false} PauseKeeps(db: Db, id: string, guildId: Option<string>)
    requires InStep(db)
    ensures InStep(Pause(db, id, guildId).0)
  {
    if Findable(db, id, guildId) && db.rows[id].rowType == Recurring {
      RemovedFromQueue(db, id);
      var row := db.rows[id].(status := Paused, bullJobId := None);
      RowWithoutJob(db, id, row, Unqueued(db.repeats, db.rows[id]));
    }
  }

  lemma {:induction false} ResumeKeeps(db: Db, id: string, guildId: Option<string>)
    requires InStep(db)
    ensures InStep(Resume(db, id, guildId).0)
  {
    if Findable(db, id, guildId) && db.rows[id].status == Paused {
      forall k | k in db.repeats ensures k.id != id {
        assert Owned(db.rows, k);
      }
      EnqueuedInStep(db, id);
    }
  }

  lemma {:induction false} OutcomeKeeps(db: Db, id: string, attempt: int, maxAttempts: int, succeeded: bool)
    requires InStep(db)
    ensures InStep(Outcome(db, id, attempt, maxAttempts, succeeded))
  {
    var after := Outcome(db, id, attempt, maxAttempts, succeeded);
    forall k | k in after.repeats ensures Owned(after.rows, k) {
      assert Owned(db.rows, k);
    }
  }

  lemma {:induction false} EditKeeps(db: Db, id: string, cron: Option<string>, everyMs: Option<int>, timezone: string)
    requires InStep(db)
    ensures InStep(Edited(db, id, cron, everyMs, timezone))
  {
    var after := Edited(db, id, cron, everyMs, timezone);
    forall k | k in after.repeats ensures Owned(after.rows, k) {
      assert Owned(db.rows, k);
    }
  }

  /** The jobs remembered by the rows with the given ids. */
  function HeldAmong(rows: map<string, Row>, ids: set<string>): set<RepeatKey> {
    set id | id in ids && id in rows && Held(rows[id]).Some? :: Held(rows[id]).value
  }

  lemma {:induction false} HeldAmongNext(rows: map<string, Row>, ids: set<string>, id: string)
    requires id in rows
    ensures forall repeats :: repeats - HeldAmong(rows, ids + {id}) == Unqueued(repeats - HeldAmong(rows, ids), rows[id])
  {
    if Held(rows[id]).Some? {
      assert HeldAmong(rows, ids + {id}) == HeldAmong(rows, ids) + {Held(rows[id]).value};
    } else {
      assert HeldAmong(rows, ids + {id}) == HeldAmong(rows, ids);
    }
  }

  lemma {:induction false} HeldAmongAffected(rows: map<string, Row>, guildId: string, affected: map<string, Row>)
    requires affected == map id | id in rows && Affected(rows[id], guildId) :: rows[id]
    ensures HeldAmong(affected, affected.Keys) == HeldBy(rows, guildId)
  {
    forall k ensures k in HeldAmong(affected, affected.Keys) <==> k in HeldBy(rows, guildId) {
      if k in HeldAmong(affected, affected.Keys) {
        var id :| id in affected && Held(affected[id]) == Some(k);
        assert Affected(rows[id], guildId) && Held(rows[id]) == Some(k);
      }
      if k in HeldBy(rows, guildId) {
        var id :| id in rows && Affected(rows[id], guildId) && Held(rows[id]) == Some(k);
        assert Held(affected[id]) == Some(k);
      }
    }
  }

  /** Deleting a guild takes exactly its own jobs off the queue. */
  lemma {:induction false} GuildDeletedKeeps(db: Db, guildId: string)
    requires InStep(db)
    ensures var after := GuildDeleted(db, guildId);
            && InStep(after)
            && (forall k :: k in after.repeats <==> k in db.repeats && db.rows[k.id].guildId != Some(guildId))
            && (forall id :: id in after.rows && after.rows[id].guildId == Some(guildId) ==> after.rows[id].deleted)
  {
    var after := GuildDeleted(db, guildId);
    forall k | k in db.repeats ensures k in after.repeats <==> db.rows[k.id].guildId != Some(guildId) {
      assert Owned(db.rows, k);
      if k !in after.repeats {
        var id :| id in db.rows && Affected(db.rows[id], guildId) && Held(db.rows[id]) == Some(k);
        assert RowOk(id, db.rows[id]);
      }
    }
    forall k | k in after.repeats ensures Owned(after.rows, k) {
      assert Owned(db.rows, k);
    }
    forall id | id in after.rows ensures RowOk(id, after.rows[id]) {
      assert RowOk(id, db.rows[id]);
    }
  }

  // ---- what a reconcile pass establishes ----

  ghost predicate OncePerKey(listing: seq<Listed>) {
    forall i, j :: 0 <= i < j < |listing| ==> listing[i].key != listing[j].key
  }

  /** The queue lists each of its jobs once, and no id but the schedule's. */
  ghost predicate Lists(listing: seq<Listed>, repeats: set<RepeatKey>) {
    && OncePerKey(listing)
    && (forall l :: l in listing ==> l.key in repeats && (l.id.Some? ==> l.id.value == l.key.id))
    && (forall k :: k in repeats ==> Listed(k, Some(k.id)) in listing || Listed(k, None) in listing)
  }

  predicate ListedWithId(listing: seq<Listed>, key: RepeatKey) {
    Listed(key, Some(key.id)) in listing
  }

  /** Different jobs have different key texts. */
  ghost predicate Telling(text: KeyText) {
    forall k, l :: text(k) == text(l) ==> k == l
  }

  /** No schedule's id is the text of a key. */
  ghost predicate Apart(text: KeyText, rows: map<string, Row>) {
    forall k :: text(k) !in rows
  }

  /** Rows and registry are in step, and the queue lists what it holds. */
  ghost predicate Ready(text: KeyText, db: Db, listing: seq<Listed>) {
    InStep(db) && Telling(text) && Apart(text, db.rows) && Lists(listing, db.repeats)
  }

  /** The job runs by the row's definition: a cron row's pattern and time zone. */
  predicate Follows(row: Row, key: RepeatKey) {
    !HasDrifted(row, key)
  }

  lemma {:induction false} OwnJobFollows(id: string, row: Row)
    ensures Follows(row, KeyOf(id, row))
  {
  }

  /** Every listed job's index is filed, and every entry is a listed job of its index. */
  lemma {:induction false} IndexMeans(text: KeyText, listing: seq<Listed>)
    ensures var byId := ByScheduleId(text, listing);
      && (forall x :: x in byId ==> byId[x] in listing && Index(text, byId[x]) == x)
      && (forall l :: l in listing ==> Index(text, l) in byId)
  {
    if listing != [] {
      var n := |listing| - 1;
      IndexMeans(text, listing[..n]);
      assert listing == listing[..n] + [listing[n]];
    }
  }

  /** The job is the one found under its index. */
  predicate Filed(text: KeyText, listing: seq<Listed>, l: Listed) {
    Index(text, l) in ByScheduleId(text, listing) && ByScheduleId(text, listing)[Index(text, l)] == l
  }

  /** Whether a job of the same index is listed later. */
  ghost predicate Overlaid(text: KeyText, listing: seq<Listed>, i: nat)
    requires i < |listing|
  {
    exists j :: i < j < |listing| && Index(text, listing[j]) == Index(text, listing[i])
  }

  lemma {:induction false} OverlaidByNext(text: KeyText, listing: seq<Listed>, l: Listed, i: nat)
    requires i < |listing|
    ensures Overlaid(text, listing + [l], i) <==> Overlaid(text, listing, i) || Index(text, l) == Index(text, listing[i])
  {
    var longer := listing + [l];
    assert longer[i] == listing[i] && longer[|listing|] == l;
    if Overlaid(text, listing, i) {
      var j :| i < j < |listing| && Index(text, listing[j]) == Index(text, listing[i]);
      assert longer[j] == listing[j];
    }
  }

  lemma {:induction false} IndexNext(text: KeyText, listing: seq<Listed>, l: Listed)
    ensures ByScheduleId(text, listing + [l]) == ByScheduleId(text, listing)[Index(text, l) := l]
  {
    assert (listing + [l])[..|listing|] == listing;
  }

  lemma {:induction false} IndexLonger(text: KeyText, listing: seq<Listed>, l: Listed, longer: seq<Listed>)
    requires longer == listing + [l]
    ensures ByScheduleId(text, longer) == ByScheduleId(text, listing)[Index(text, l) := l]
  {
    IndexNext(text, listing, l);
  }

  lemma {:induction false} Prefixes(listing: seq<Listed>)
    ensures listing[..0] == [] && listing[..|listing|] == listing
    ensures forall i :: 0 <= i < |listing| ==> listing[..i + 1] == listing[..i] + [listing[i]]
  {
  }

  lemma {:induction false} FiledNext(text: KeyText, listing: seq<Listed>, l: Listed, i: nat)
    requires i < |listing| && listing[i] in listing && l.key != listing[i].key
    requires Filed(text, listing, listing[i]) <==> !Overlaid(text, listing, i)
    ensures Filed(text, listing + [l], listing[i]) <==> !Overlaid(text, listing + [l], i)
  {
    OverlaidByNext(text, listing, l, i);
    IndexNext(text, listing, l);
  }

  /** A job is found under its index exactly when none of that index is listed later. */
  lemma {:induction false} LastIsFiled(text: KeyText, listing: seq<Listed>, i: nat)
    requires i < |listing| && OncePerKey(listing)
    ensures listing[i] in listing
    ensures Filed(text, listing, listing[i]) <==> !Overlaid(text, listing, i)
  {
    var front, last := listing[..|listing| - 1], listing[|listing| - 1];
    assert listing == front + [last];
    if i < |front| {
      LastIsFiled(text, front, i);
      FiledNext(text, front, last, i);
    } else {
      IndexNext(text, front, last);
    }
  }

  /** A job that was registered stays unless it is replaced or removed as an orphan. */
  lemma {:induction false} OldJobStays(db: Db, byId: map<string, Listed>, k: RepeatKey)
    requires k in db.repeats
    ensures k in Reconciled(db, byId).repeats <==> !Replaced(db.rows, byId, k) && k !in Orphans(byId, LiveIds(db.rows))
  {
    assert Replaced(db.rows, byId, k) ==> k != KeyOf(k.id, db.rows[k.id]);
  }

  /** In any state of rows and registry, a listed job stays registered exactly when another
      job is listed later under the same index, or when it is listed with its id, its row
      is active and it follows the row. So of several jobs with one id all but the last
      stay, even when the row is gone. */
  lemma {:induction false} SurvivesExactlyWhen(text: KeyText, db: Db, listing: seq<Listed>, i: nat)
    requires Lists(listing, db.repeats) && Apart(text, db.rows) && i < |listing|
    ensures var l := listing[i];
      l.key in Reconciled(db, ByScheduleId(text, listing)).repeats
      <==> Overlaid(text, listing, i)
           || (l.id.Some? && LiveRecurring(db.rows, l.key.id) && Follows(db.rows[l.key.id], l.key))
  {
    LastIsFiled(text, listing, i);
    FiledOnlyOnce(text, listing, i);
    assert listing[i] in listing;
    OldJobStays(db, ByScheduleId(text, listing), listing[i].key);
    if !Overlaid(text, listing, i) {
      FiledStays(text, db, listing, listing[i]);
    }
  }

  lemma {:induction false} FiledStays(text: KeyText, db: Db, listing: seq<Listed>, l: Listed)
    requires Lists(listing, db.repeats) && Apart(text, db.rows) && l in listing
    requires Filed(text, listing, l)
    requires forall x :: x in ByScheduleId(text, listing) && ByScheduleId(text, listing)[x].key == l.key ==> x == Index(text, l)
    ensures var byId := ByScheduleId(text, listing);
      !Replaced(db.rows, byId, l.key) && l.key !in Orphans(byId, LiveIds(db.rows))
      <==> l.id.Some? && LiveRecurring(db.rows, l.key.id) && Follows(db.rows[l.key.id], l.key)
  {
    var byId, x := ByScheduleId(text, listing), Index(text, l);
    IndexMeans(text, listing);
    assert x !in LiveIds(db.rows) ==> l.key in Orphans(byId, LiveIds(db.rows));
    assert l.id.None? ==> x !in db.rows;
  }

  /** A job is found under no other index. */
  lemma {:induction false} FiledOnlyOnce(text: KeyText, listing: seq<Listed>, i: nat)
    requires i < |listing| && OncePerKey(listing)
    ensures var byId := ByScheduleId(text, listing);
      forall x :: x in byId && byId[x].key == listing[i].key ==> byId[x] == listing[i] && x == Index(text, listing[i])
  {
    var byId := ByScheduleId(text, listing);
    IndexMeans(text, listing);
    forall x | x in byId && byId[x].key == listing[i].key ensures byId[x] == listing[i] {
      var j :| 0 <= j < |listing| && listing[j] == byId[x];
    }
  }

  /** In step, no two jobs share an index: every one is found under its own. */
  lemma {:induction false} EveryJobIsFiled(text: KeyText, db: Db, listing: seq<Listed>, l: Listed)
    requires Ready(text, db, listing) && l in listing
    ensures Filed(text, listing, l)
  {
    IndexMeans(text, listing);
    var other := ByScheduleId(text, listing)[Index(text, l)];
    AtMostOneRepeatable(db);
    assert other in listing && Index(text, other) == Index(text, l);
    assert other.key == l.key;
    var i :| 0 <= i < |listing| && listing[i] == l;
    FiledOnlyOnce(text, listing, i);
  }

  /** What is found for a row is the row's job, if the queue lists it with its id. */
  lemma {:induction false} LookupFinds(text: KeyText, db: Db, listing: seq<Listed>, id: string)
    requires Ready(text, db, listing) && id in db.rows
    ensures var found := Lookup(ByScheduleId(text, listing), id);
      && (found.Some? ==> found.value in db.repeats && found.value.id == id && ListedWithId(listing, found.value))
      && (forall k :: k in db.repeats && k.id == id && ListedWithId(listing, k) ==> found == Some(k))
  {
    var byId := ByScheduleId(text, listing);
    IndexMeans(text, listing);
    forall k | k in db.repeats && k.id == id && ListedWithId(listing, k) ensures Lookup(byId, id) == Some(k) {
      EveryJobIsFiled(text, db, listing, Listed(k, Some(id)));
    }
  }

  /** A job the pass leaves alone: found by its id, of an active row that it follows. */
  predicate Kept(db: Db, listing: seq<Listed>, k: RepeatKey) {
    && k in db.repeats && ListedWithId(listing, k)
    && LiveRecurring(db.rows, k.id) && Follows(db.rows[k.id], k)
  }

  /** A job the pass adds: the own job of an active row of which it keeps none. */
  ghost predicate Anew(db: Db, listing: seq<Listed>, k: RepeatKey) {
    && k !in db.repeats && LiveRecurring(db.rows, k.id) && k == KeyOf(k.id, db.rows[k.id])
    && (forall j :: j in db.repeats && j.id == k.id ==> !Kept(db, listing, j))
  }

  lemma {:induction false} OldJobAfterPass(text: KeyText, db: Db, listing: seq<Listed>, k: RepeatKey)
    requires Ready(text, db, listing) && k in db.repeats
    ensures k in Reconciled(db, ByScheduleId(text, listing)).repeats <==> Kept(db, listing, k)
  {
    var l := if ListedWithId(listing, k) then Listed(k, Some(k.id)) else Listed(k, None);
    assert l in listing;
    var i :| 0 <= i < |listing| && listing[i] == l;
    EveryJobIsFiled(text, db, listing, l);
    LastIsFiled(text, listing, i);
    SurvivesExactlyWhen(text, db, listing, i);
  }

  lemma {:induction false} StaleMeans(text: KeyText, db: Db, listing: seq<Listed>, id: string)
    requires Ready(text, db, listing)
    ensures Stale(db.rows, ByScheduleId(text, listing), id)
       <==> LiveRecurring(db.rows, id) && forall j :: j in db.repeats && j.id == id ==> !Kept(db, listing, j)
  {
    if LiveRecurring(db.rows, id) {
      LookupFinds(text, db, listing, id);
    }
  }

  lemma {:induction false} NewJobAfterPass(text: KeyText, db: Db, listing: seq<Listed>, k: RepeatKey)
    requires Ready(text, db, listing) && k !in db.repeats
    ensures k in Reconciled(db, ByScheduleId(text, listing)).repeats <==> Anew(db, listing, k)
  {
    var byId := ByScheduleId(text, listing);
    IndexMeans(text, listing);
    assert k !in Orphans(byId, LiveIds(db.rows));
    assert Stale(db.rows, byId, k.id) ==> KeyOf(k.id, db.rows[k.id]).id == k.id;
    StaleMeans(text, db, listing, k.id);
  }

  /** The jobs a pass leaves: the ones it keeps and the ones it adds. */
  lemma {:induction false} JobsAfterPass(text: KeyText, db: Db, listing: seq<Listed>)
    requires Ready(text, db, listing)
    ensures forall k :: k in Reconciled(db, ByScheduleId(text, listing)).repeats <==> Kept(db, listing, k) || Anew(db, listing, k)
  {
    forall k ensures k in Reconciled(db, ByScheduleId(text, listing)).repeats <==> Kept(db, listing, k) || Anew(db, listing, k) {
      if k in db.repeats {
        OldJobAfterPass(text, db, listing, k);
      } else {
        NewJobAfterPass(text, db, listing, k);
      }
    }
  }

  /** A cron row's job has the row's pattern and, where the job names none, UTC. */
  ghost predicate InForce(row: Row, rule: Rule) {
    row.cron.Some? && row.cron.value != "" ==>
      rule == Pattern(row.cron.value, Some(row.timezone)) || (rule == Pattern(row.cron.value, None) && row.timezone == "UTC")
  }

  /** A pass leaves only jobs of active recurring rows, cron rows with their own pattern and
      time zone, jobs it adds with the rule of their row, and rows and registry in step. */
  lemma {:induction false} ReconcileEstablishes(text: KeyText, db: Db, listing: seq<Listed>)
    requires Ready(text, db, listing)
    ensures var after := Reconciled(db, ByScheduleId(text, listing));
            && InStep(after) && Apart(text, after.rows)
            && (forall id :: LiveRecurring(after.rows, id) <==> LiveRecurring(db.rows, id))
            && (forall k :: k in after.repeats ==> LiveRecurring(after.rows, k.id) && Follows(after.rows[k.id], k))
            && (forall k :: k in after.repeats && k !in db.repeats ==> RunsByRow(after.rows, k))
            && (forall k :: k in after.repeats ==> InForce(after.rows[k.id], k.rule))
  {
    var byId := ByScheduleId(text, listing);
    var after := Reconciled(db, byId);
    JobsAfterPass(text, db, listing);
    forall k | k in after.repeats ensures Owned(after.rows, k) && Follows(after.rows[k.id], k) {
      StaleMeans(text, db, listing, k.id);
      OwnJobFollows(k.id, db.rows[k.id]);
      assert Kept(db, listing, k) ==> Owned(db.rows, k);
    }
    forall id | id in after.rows ensures RowOk(id, after.rows[id]) {
      assert RowOk(id, db.rows[id]);
    }
  }

  ghost predicate HasJob(repeats: set<RepeatKey>, id: string) {
    exists k :: k in repeats && k.id == id
  }

  /** The row's own job is registered, but the queue lists it without the schedule's id. */
  predicate Hidden(db: Db, listing: seq<Listed>, id: string) {
    id in db.rows && KeyOf(id, db.rows[id]) in db.repeats && !ListedWithId(listing, KeyOf(id, db.rows[id]))
  }

  /** After a pass a row has a job exactly when it is active and its own job was not listed
      without its id: such a job is not found, added again under the key it has, and then
      removed with the orphans. */
  lemma {:induction false} RegisteredExactlyWhen(text: KeyText, db: Db, listing: seq<Listed>, id: string)
    requires Ready(text, db, listing)
    ensures HasJob(Reconciled(db, ByScheduleId(text, listing)).repeats, id)
       <==> LiveRecurring(db.rows, id) && !Hidden(db, listing, id)
  {
    JobsAfterPass(text, db, listing);
    AtMostOneRepeatable(db);
    if LiveRecurring(db.rows, id) {
      var after, own := Reconciled(db, ByScheduleId(text, listing)), KeyOf(id, db.rows[id]);
      OwnJobFollows(id, db.rows[id]);
      assert Hidden(db, listing, id) ==> !Kept(db, listing, own);
      if !Hidden(db, listing, id) && !(exists k :: Kept(db, listing, k) && k.id == id) {
        assert own in db.repeats ==> Kept(db, listing, own);
        assert Anew(db, listing, own);
      }
    }
  }

  /** A pass leaves exactly the active recurring rows registered exactly when every own job
      of an active row is listed with its id. */
  lemma {:induction false} ConvergesExactlyWhen(text: KeyText, db: Db, listing: seq<Listed>)
    requires Ready(text, db, listing)
    ensures (forall id :: HasJob(Reconciled(db, ByScheduleId(text, listing)).repeats, id) <==> LiveRecurring(db.rows, id))
       <==> forall k :: k in db.repeats && LiveRecurring(db.rows, k.id) && k == KeyOf(k.id, db.rows[k.id]) ==>
              ListedWithId(listing, k)
  {
    forall id ensures HasJob(Reconciled(db, ByScheduleId(text, listing)).repeats, id)
                 <==> LiveRecurring(db.rows, id) && !Hidden(db, listing, id) {
      RegisteredExactlyWhen(text, db, listing, id);
    }
    if k :| k in db.repeats && LiveRecurring(db.rows, k.id) && k == KeyOf(k.id, db.rows[k.id]) && !ListedWithId(listing, k) {
      assert Hidden(db, listing, k.id);
    }
  }

  /** Every active row has a job, and every job is listed with its id, belongs to an active
      row and follows it. */
  ghost predicate Converged(db: Db, listing: seq<Listed>) {
    && (forall id :: LiveRecurring(db.rows, id) ==> HasJob(db.repeats, id))
    && (forall k :: k in db.repeats ==> Kept(db, listing, k))
  }

  /** The states that a pass leaves as they are. */
  lemma {:induction false} PassChangesNothingExactlyWhen(text: KeyText, db: Db, listing: seq<Listed>)
    requires Ready(text, db, listing)
    ensures Reconciled(db, ByScheduleId(text, listing)) == db <==> Converged(db, listing)
  {
    if Reconciled(db, ByScheduleId(text, listing)) == db {
      JobsAfterPass(text, db, listing);
      forall id | LiveRecurring(db.rows, id) ensures HasJob(db.repeats, id) {
        assert !HasJob(db.repeats, id) ==> Anew(db, listing, KeyOf(id, db.rows[id]));
      }
    }
    if Converged(db, listing) {
      ConvergedStays(text, db, listing);
    }
  }

  lemma {:induction false} ConvergedStays(text: KeyText, db: Db, listing: seq<Listed>)
    requires Ready(text, db, listing) && Converged(db, listing)
    ensures Reconciled(db, ByScheduleId(text, listing)) == db
  {
    var byId := ByScheduleId(text, listing);
    var after := Reconciled(db, byId);
    forall id | id in db.rows ensures !Stale(db.rows, byId, id) {
      StaleMeans(text, db, listing, id);
    }
    NothingStale(db, byId);
    JobsAfterPass(text, db, listing);
    forall k ensures k in after.repeats <==> k in db.repeats {
      NothingAnew(db, listing, k);
    }
  }

  lemma {:induction false} NothingStale(db: Db, byId: map<string, Listed>)
    requires forall id :: id in db.rows ==> !Stale(db.rows, byId, id)
    ensures Reconciled(db, byId).rows == db.rows
  {
  }

  lemma {:induction false} NothingAnew(db: Db, listing: seq<Listed>, k: RepeatKey)
    requires Converged(db, listing)
    ensures !Anew(db, listing, k)
  {
    assert LiveRecurring(db.rows, k.id) ==> HasJob(db.repeats, k.id);
  }

  /** A second pass changes nothing, in whatever order the jobs are listed, exactly when the
      first left every active row a job and the second lists every job with its id. */
  lemma {:induction false} SecondPassChangesNothingExactlyWhen(text: KeyText, db: Db, listing: seq<Listed>, again: seq<Listed>)
    requires Ready(text, db, listing) && Lists(again, Reconciled(db, ByScheduleId(text, listing)).repeats)
    ensures var after := Reconciled(db, ByScheduleId(text, listing));
            Reconciled(after, ByScheduleId(text, again)) == after
            <==> (forall id :: LiveRecurring(db.rows, id) ==> !Hidden(db, listing, id))
                 && (forall k :: k in after.repeats ==> ListedWithId(again, k))
  {
    var after := Reconciled(db, ByScheduleId(text, listing));
    ReconcileEstablishes(text, db, listing);
    PassChangesNothingExactlyWhen(text, after, again);
    forall id ensures LiveRecurring(db.rows, id) ==> (HasJob(after.repeats, id) <==> !Hidden(db, listing, id)) {
      RegisteredExactlyWhen(text, db, listing, id);
    }
    assert forall k :: k in after.repeats ==> (Kept(after, again, k) <==> ListedWithId(again, k));
  }

  /** While the queue lists an active row's own job without its id, passes alternate: one
      removes the job, the next adds it, the one after that removes it again. */
  lemma {:induction false} PassesAlternate(
      text: KeyText, db: Db, first: seq<Listed>, second: seq<Listed>, third: seq<Listed>, id: string)
    requires Ready(text, db, first) && LiveRecurring(db.rows, id) && Hidden(db, first, id)
    requires Lists(second, Reconciled(db, ByScheduleId(text, first)).repeats)
    requires Lists(third, Reconciled(Reconciled(db, ByScheduleId(text, first)), ByScheduleId(text, second)).repeats)
    requires !ListedWithId(third, KeyOf(id, db.rows[id]))
    ensures var once := Reconciled(db, ByScheduleId(text, first));
            var twice := Reconciled(once, ByScheduleId(text, second));
            && !HasJob(once.repeats, id)
            && KeyOf(id, db.rows[id]) in twice.repeats
            && !HasJob(Reconciled(twice, ByScheduleId(text, third)).repeats, id)
  {
    var once := Reconciled(db, ByScheduleId(text, first));
    var twice := Reconciled(once, ByScheduleId(text, second));
    var own := KeyOf(id, db.rows[id]);
    RegisteredExactlyWhen(text, db, first, id);
    ReconcileEstablishes(text, db, first);
    assert KeyOf(id, once.rows[id]) == own && own !in once.repeats;
    JobsAfterPass(text, once, second);
    assert Anew(once, second, own);
    ReconcileEstablishes(text, once, second);
    assert KeyOf(id, twice.rows[id]) == own && own in twice.repeats;
    RegisteredExactlyWhen(text, twice, third, id);
  }

  /** The row has its own job and no other. */
  ghost predicate OwnJobAlone(repeats: set<RepeatKey>, id: string, row: Row) {
    forall k :: k in repeats && k.id == id <==> k == KeyOf(id, row)
  }

  /** An active row ends a pass with its own job alone exactly when its own job, if it has
      it, is listed with the id, and any other job listed with the id does not follow it. */
  lemma {:induction false} OwnJobExactlyWhen(text: KeyText, db: Db, listing: seq<Listed>, id: string)
    requires Ready(text, db, listing) && LiveRecurring(db.rows, id)
    ensures var row := db.rows[id];
            OwnJobAlone(Reconciled(db, ByScheduleId(text, listing)).repeats, id, row)
            <==> forall k :: k in db.repeats && k.id == id ==>
                   if k == KeyOf(id, row) then ListedWithId(listing, k) else ListedWithId(listing, k) ==> !Follows(row, k)
  {
    var row, own, after := db.rows[id], KeyOf(id, db.rows[id]), Reconciled(db, ByScheduleId(text, listing));
    JobsAfterPass(text, db, listing);
    AtMostOneRepeatable(db);
    OwnJobFollows(id, row);
    forall k | k in db.repeats && k.id == id
      ensures own in after.repeats <==> if k == own then ListedWithId(listing, k) else ListedWithId(listing, k) ==> !Follows(row, k)
    {
      assert Kept(db, listing, k) <==> ListedWithId(listing, k) && Follows(row, k);
    }
    if !HasJob(db.repeats, id) {
      assert Anew(db, listing, own);
    }
    OneJobAfterPass(text, db, listing, id);
  }

  lemma {:induction false} OneJobAfterPass(text: KeyText, db: Db, listing: seq<Listed>, id: string)
    requires Ready(text, db, listing)
    ensures var after := Reconciled(db, ByScheduleId(text, listing));
            forall j, k :: j in after.repeats && k in after.repeats && j.id == k.id ==> j == k
  {
    ReconcileEstablishes(text, db, listing);
    AtMostOneRepeatable(Reconciled(db, ByScheduleId(text, listing)));
  }

  /** An interval row is never checked, so it does exactly when its own job is the one job
      of the row that is listed with the id: with all ids listed, exactly when it had no job
      or its own. */
  lemma {:induction false} IntervalRowExactlyWhen(text: KeyText, db: Db, listing: seq<Listed>, id: string)
    requires Ready(text, db, listing) && LiveRecurring(db.rows, id)
    requires db.rows[id].cron.None? || db.rows[id].cron.value == ""
    ensures var alone := OwnJobAlone(Reconciled(db, ByScheduleId(text, listing)).repeats, id, db.rows[id]);
            var own := KeyOf(id, db.rows[id]);
            && (alone <==> forall k :: k in db.repeats && k.id == id ==> (ListedWithId(listing, k) <==> k == own))
            && ((forall k :: k in db.repeats ==> ListedWithId(listing, k)) ==>
                  (alone <==> !HasJob(db.repeats, id) || own in db.repeats))
  {
    OwnJobExactlyWhen(text, db, listing, id);
    AtMostOneRepeatable(db);
  }

  /** After a run and the next pass a row has a job exactly when it was active, the run did
      not fail for the last time, and its own job is not listed without its id: a run that
      does fail marks the row failed, so that the schedule ends. */
  lemma {:induction false} RegisteredAfterRunExactlyWhen(
      text: KeyText, db: Db, id: string, attempt: int, maxAttempts: int, succeeded: bool, listing: seq<Listed>)
    requires Ready(text, db, listing)
    ensures var after := Outcome(db, id, attempt, maxAttempts, succeeded);
            HasJob(Reconciled(after, ByScheduleId(text, listing)).repeats, id)
            <==> LiveRecurring(db.rows, id) && (succeeded || attempt < maxAttempts) && !Hidden(db, listing, id)
  {
    OutcomeKeeps(db, id, attempt, maxAttempts, succeeded);
    RegisteredExactlyWhen(text, Outcome(db, id, attempt, maxAttempts, succeeded), listing, id);
  }

  /** Every job runs by the rule of its row. */
  ghost predicate AsDefined(db: Db) {
    forall k :: k in db.repeats ==> k.id in db.rows && k == KeyOf(k.id, db.rows[k.id])
  }

  /** If no definition was edited behind the service, a pass leaves only own jobs, interval
      rows included; and those of all active recurring rows exactly when the jobs of active
      rows are listed with their ids. */
  lemma {:induction false} ReconcileIsExact(text: KeyText, db: Db, listing: seq<Listed>)
    requires Ready(text, db, listing) && AsDefined(db)
    ensures var after := Reconciled(db, ByScheduleId(text, listing));
            && AsDefined(after)
            && ((forall k :: k in after.repeats <==> LiveRecurring(db.rows, k.id) && k == KeyOf(k.id, db.rows[k.id]))
                <==> forall k :: k in db.repeats && LiveRecurring(db.rows, k.id) ==> ListedWithId(listing, k))
  {
    JobsAfterPass(text, db, listing);
    forall k ensures Kept(db, listing, k) || Anew(db, listing, k)
                <==> OwnOfActive(db, k) && (k in db.repeats ==> ListedWithId(listing, k))
    {
      OwnJobsAfterPass(db, listing, k);
    }
    assert forall k :: k in db.repeats && LiveRecurring(db.rows, k.id) ==> OwnOfActive(db, k);
  }

  predicate OwnOfActive(db: Db, k: RepeatKey) {
    LiveRecurring(db.rows, k.id) && k == KeyOf(k.id, db.rows[k.id])
  }

  lemma {:induction false} OwnJobsAfterPass(db: Db, listing: seq<Listed>, k: RepeatKey)
    requires AsDefined(db)
    ensures Kept(db, listing, k) || Anew(db, listing, k)
       <==> OwnOfActive(db, k) && (k in db.repeats ==> ListedWithId(listing, k))
  {
    if LiveRecurring(db.rows, k.id) {
      OwnJobFollows(k.id, db.rows[k.id]);
    }
  }

  // ---- what the calls do ----

  /** The row can be acted on by the guild: it exists, is not deleted and is the guild's. */
  ghost predicate Acts(db: Db, id: string, guildId: Option<string>) {
    id in db.rows && !db.rows[id].deleted && db.rows[id].guildId == guildId
  }

  /** Every other row, and every job with another id, is as before. */
  ghost predicate OthersUntouched(before: Db, after: Db, id: string) {
    && after.rows.Keys == before.rows.Keys
    && (forall i :: i in before.rows && i != id ==> after.rows[i] == before.rows[i])
    && (forall k: RepeatKey :: k.id != id ==> (k in after.repeats <==> k in before.repeats))
  }

  /** Cancelling deletes the row and ends its job, or does not find the row. */
  lemma {:induction false} CancelMeans(db: Db, id: string, guildId: Option<string>)
    requires InStep(db)
    ensures var (after, error) := Cancel(db, id, guildId);
            if Acts(db, id, guildId) then
              && error == None && OthersUntouched(db, after, id)
              && after.rows[id].deleted && after.rows[id].status == Cancelled && !HasJob(after.repeats, id)
            else error == Some(NotFound) && after == db
  {
    if Acts(db, id, guildId) {
      RemovedFromQueue(db, id);
    }
  }

  /** Pausing ends the job of a recurring row and keeps the row. */
  lemma {:induction false} PauseMeans(db: Db, id: string, guildId: Option<string>)
    requires InStep(db)
    ensures var (after, error) := Pause(db, id, guildId);
            if !Acts(db, id, guildId) then error == Some(NotFound) && after == db
            else if db.rows[id].rowType != Recurring then error == Some(BadRequest) && after == db
            else
              && error == None && OthersUntouched(db, after, id)
              && after.rows[id] == db.rows[id].(status := Paused, bullJobId := None) && !HasJob(after.repeats, id)
  {
    if Acts(db, id, guildId) && db.rows[id].rowType == Recurring {
      RemovedFromQueue(db, id);
    }
  }

  /** Resuming gives a paused row its job back, by the row's rule. */
  lemma {:induction false} ResumeMeans(db: Db, id: string, guildId: Option<string>)
    requires InStep(db)
    ensures var (after, error) := Resume(db, id, guildId);
            if !Acts(db, id, guildId) then error == Some(NotFound) && after == db
            else if db.rows[id].status != Paused then error == Some(BadRequest) && after == db
            else
              && error == None && OthersUntouched(db, after, id) && LiveRecurring(after.rows, id)
              && HasJob(after.repeats, id) && forall k :: k in after.repeats && k.id == id ==> RunsByRow(after.rows, k)
  {
    if Acts(db, id, guildId) && db.rows[id].status == Paused {
      var after := Resume(db, id, guildId).0;
      assert RowOk(id, db.rows[id]);
      forall k | k in db.repeats ensures k.id != id {
        assert Owned(db.rows, k);
      }
      assert KeyOf(id, db.rows[id]) in after.repeats;
    }
  }

  /** A run touches nothing but its row's status: completed when a live one-shot row
      succeeds, failed when the last attempt of any row fails. */
  lemma {:induction false} OutcomeMeans(db: Db, id: string, attempt: int, maxAttempts: int, succeeded: bool)
    requires id in db.rows
    ensures var after, row := Outcome(db, id, attempt, maxAttempts, succeeded), db.rows[id];
            && after.repeats == db.repeats && OthersUntouched(db, after, id)
            && after.rows[id] == row.(status := after.rows[id].status)
            && (succeeded && !row.deleted && row.rowType == Once ==> after.rows[id].status == Completed)
            && (!succeeded && attempt >= maxAttempts ==> after.rows[id].status == Failed)
            && ((succeeded && (row.deleted || row.rowType == Recurring)) || (!succeeded && attempt < maxAttempts) ==> after == db)
  {
  }

  // ---- scheduling again ----

  /** What the unique key compares. */
  ghost predicate EqualTuple(same: Collation, row: Row, input: ScheduleInput) {
    && row.guildId == input.guildId && same(row.kind, input.kind)
    && row.idempotencyKey.Some? && same(row.idempotencyKey.value, input.idempotencyKey)
  }

  /** Scheduling succeeds exactly when there is no guild or no row, live or deleted, has a
      tuple that the tables take for the same. So replacing a guild's schedule removes the old one and then fails. */
  lemma {:induction false} ScheduleSucceedsExactlyWhen(same: Collation, db: Db, input: ScheduleInput, existing: Option<string>, newId: string)
    requires InStep(db) && newId !in db.rows && FoundByDedup(same, db.rows, input, existing)
    ensures ScheduleRecurring(same, db, input, existing, newId).1.None? <==> !TupleTaken(same, db.rows, input)
    ensures !TupleTaken(same, db.rows, input)
       <==> input.guildId.None? || forall id :: id in db.rows ==> !EqualTuple(same, db.rows[id], input)
    ensures existing.Some? && input.guildId.Some? ==>
              var (after, error) := ScheduleRecurring(same, db, input, existing, newId);
              && error == Some(UniqueViolation)
              && after.rows[existing.value].deleted
              && forall k :: k in after.repeats ==> k.id != existing.value
  {
    StillTaken(same, db, input, existing);
    if existing.Some? {
      RemovedFromQueue(db, existing.value);
    }
  }

  /** The rule of a definition: its cron pattern in its time zone, or without a cron its
      interval, a minute if it has none. */
  ghost predicate RunsBy(rule: Rule, cron: Option<string>, everyMs: Option<int>, timezone: string) {
    && (cron.Some? && cron.value != "" ==> rule == Pattern(cron.value, Some(timezone)))
    && (cron.None? || cron.value == "" ==> rule.Every?)
    && (rule.Every? && everyMs.Some? ==> rule.ms == everyMs.value)
    && (rule.Every? && everyMs.None? ==> rule.ms == 60000)
  }

  /** The job has the kind and the rule of the row filed under its id. */
  ghost predicate RunsByRow(rows: map<string, Row>, k: RepeatKey) {
    k.id in rows && k.kind == rows[k.id].kind
    && RunsBy(k.rule, rows[k.id].cron, rows[k.id].everyMs, rows[k.id].timezone)
  }

  /** A new schedule is an active row with what was asked for, and registered under the
      rule that was asked for. */
  lemma {:induction false} ScheduledIsRegistered(same: Collation, db: Db, input: ScheduleInput, existing: Option<string>, newId: string)
    requires InStep(db) && newId !in db.rows && FoundByDedup(same, db.rows, input, existing) && !TupleTaken(same, db.rows, input)
    ensures var (after, _) := ScheduleRecurring(same, db, input, existing, newId);
            && LiveRecurring(after.rows, newId)
            && AsAskedFor(after.rows[newId], input)
            && (exists k :: k in after.repeats && k.id == newId && k.kind == input.kind
                  && RunsBy(k.rule, input.cron, input.everyMs, input.timezone))
            && (forall k, l :: k in after.repeats && l in after.repeats && k.id == l.id ==> k == l)
  {
    var after := ScheduleRecurring(same, db, input, existing, newId).0;
    ScheduleSucceedsExactlyWhen(same, db, input, existing, newId);
    assert KeyOf(newId, after.rows[newId]) in after.repeats;
    ScheduleKeeps(same, db, input, existing, newId);
    AtMostOneRepeatable(after);
  }

  ghost predicate AsAskedFor(row: Row, input: ScheduleInput) {
    && row.guildId == input.guildId && row.kind == input.kind && row.idempotencyKey == Some(input.idempotencyKey)
    && row.cron == input.cron && row.everyMs == input.everyMs && row.timezone == input.timezone
  }

  /** Pausing and resuming restores the registered job and the row. */
  lemma {:induction false} ResumeUndoesPause(db: Db, id: string, guildId: Option<string>)
    requires InStep(db) && Findable(db, id, guildId) && KeyOf(id, db.rows[id]) in db.repeats && db.rows[id].status == Active
    ensures Pause(db, id, guildId).1.None? && Resume(Pause(db, id, guildId).0, id, guildId) == (db, None)
  {
    var row, key := db.rows[id], KeyOf(id, db.rows[id]);
    assert Owned(db.rows, key);
    var paused := Pause(db, id, guildId).0;
    var resumed := Resume(paused, id, guildId).0;
    assert KeyOf(id, paused.rows[id]) == key;
    assert resumed.rows == db.rows;
    assert resumed.repeats == db.repeats;
  }

  // ---- runs ----

  datatype Op =
    | OpSchedule(input: ScheduleInput, existing: Option<string>, newId: string)
    | OpCancel(id: string, guildId: Option<string>)
    | OpPause(id: string, guildId: Option<string>)
    | OpResume(id: string, guildId: Option<string>)
    | OpOutcome(id: string, attempt: int, maxAttempts: int, succeeded: bool)
    | OpReconcile(listing: seq<Listed>)
    | OpGuildDeleted(guild: string)
    | OpEdit(id: string, cron: Option<string>, everyMs: Option<int>, timezone: string)
    | OpQueueLoss(kept: set<RepeatKey>)

  /** What the database and the queue answer agrees with what they hold, and no new id is
      the text of a key. */
  ghost predicate Legal(same: Collation, text: KeyText, db: Db, op: Op) {
    match op
    case OpSchedule(input, existing, newId) =>
      newId !in db.rows && (forall k :: text(k) != newId) && FoundByDedup(same, db.rows, input, existing)
    case OpReconcile(listing) => Lists(listing, db.repeats)
    case _ => true
  }

  ghost function Apply(same: Collation, text: KeyText, db: Db, op: Op): Db
    requires Legal(same, text, db, op)
  {
    match op
    case OpSchedule(input, existing, newId) => ScheduleRecurring(same, db, input, existing, newId).0
    case OpCancel(id, guildId) => Cancel(db, id, guildId).0
    case OpPause(id, guildId) => Pause(db, id, guildId).0
    case OpResume(id, guildId) => Resume(db, id, guildId).0
    case OpOutcome(id, attempt, maxAttempts, succeeded) => Outcome(db, id, attempt, maxAttempts, succeeded)
    case OpReconcile(listing) => Reconciled(db, ByScheduleId(text, listing))
    case OpGuildDeleted(guild) => GuildDeleted(db, guild)
    case OpEdit(id, cron, everyMs, timezone) => Edited(db, id, cron, everyMs, timezone)
    case OpQueueLoss(kept) => db.(repeats := db.repeats * kept)
  }

  ghost predicate IsRun(same: Collation, text: KeyText, states: seq<Db>, ops: seq<Op>) {
    && |states| == |ops| + 1
    && states[0] == Db(map[], {})
    && forall i :: 0 <= i < |ops| ==> Legal(same, text, states[i], ops[i]) && states[i + 1] == Apply(same, text, states[i], ops[i])
  }

  lemma {:induction false} StepKeeps(same: Collation, text: KeyText, db: Db, op: Op)
    requires InStep(db) && Telling(text) && Apart(text, db.rows) && Legal(same, text, db, op)
    ensures InStep(Apply(same, text, db, op)) && Apart(text, Apply(same, text, db, op).rows)
  {
    match op
    case OpSchedule(input, existing, newId) => ScheduleKeeps(same, db, input, existing, newId);
    case OpCancel(id, guildId) => CancelKeeps(db, id, guildId);
    case OpPause(id, guildId) => PauseKeeps(db, id, guildId);
    case OpResume(id, guildId) => ResumeKeeps(db, id, guildId);
    case OpOutcome(id, attempt, maxAttempts, succeeded) => OutcomeKeeps(db, id, attempt, maxAttempts, succeeded);
    case OpReconcile(listing) => ReconcileEstablishes(text, db, listing);
    case OpGuildDeleted(guild) => GuildDeletedKeeps(db, guild);
    case OpEdit(id, cron, everyMs, timezone) => EditKeeps(db, id, cron, everyMs, timezone);
    case OpQueueLoss(kept) =>
  }

  /** In every run, after every call, rows and registry are in step. */
  lemma {:induction false} EveryRunStaysInStep(same: Collation, text: KeyText, states: seq<Db>, ops: seq<Op>, i: nat)
    requires Telling(text) && IsRun(same, text, states, ops) && i < |states|
    ensures InStep(states[i]) && Apart(text, states[i].rows)
  {
    if i > 0 {
      EveryRunStaysInStep(same, text, states, ops, i - 1);
      assert Legal(same, text, states[i - 1], ops[i - 1]);
      StepKeeps(same, text, states[i - 1], ops[i - 1]);
    }
  }

  lemma {:induction false} StepKeepsAsDefined(same: Collation, text: KeyText, db: Db, op: Op)
    requires InStep(db) && Telling(text) && Apart(text, db.rows) && AsDefined(db)
    requires Legal(same, text, db, op) && !op.OpEdit?
    ensures AsDefined(Apply(same, text, db, op))
  {
    match op
    case OpSchedule(input, existing, newId) =>
      if existing.Some? {
        RemovedFromQueue(db, existing.value);
      }
    case OpCancel(id, guildId) =>
      if id in db.rows { RemovedFromQueue(db, id); }
    case OpPause(id, guildId) =>
      if id in db.rows { RemovedFromQueue(db, id); }
    case OpResume(id, guildId) =>
    case OpOutcome(id, attempt, maxAttempts, succeeded) =>
    case OpReconcile(listing) => ReconcileIsExact(text, db, listing);
    case OpGuildDeleted(guild) =>
    case OpQueueLoss(kept) =>
  }

  lemma {:induction false} RunsWithoutEditsStayAsDefined(same: Collation, text: KeyText, states: seq<Db>, ops: seq<Op>, i: nat)
    requires Telling(text) && IsRun(same, text, states, ops) && i < |states|
    requires forall j :: 0 <= j < |ops| ==> !ops[j].OpEdit?
    ensures AsDefined(states[i])
    ensures forall k :: k in states[i].repeats ==> RunsByRow(states[i].rows, k)
  {
    if i > 0 {
      RunsWithoutEditsStayAsDefined(same, text, states, ops, i - 1);
      EveryRunStaysInStep(same, text, states, ops, i - 1);
      assert Legal(same, text, states[i - 1], ops[i - 1]);
      StepKeepsAsDefined(same, text, states[i - 1], ops[i - 1]);
    }
  }

  lemma {:induction false} StepKeepsTuple(same: Collation, text: KeyText, db: Db, op: Op, input: ScheduleInput)
    requires Legal(same, text, db, op) && TupleTaken(same, db.rows, input)
    ensures TupleTaken(same, Apply(same, text, db, op).rows, input)
  {
    var id :| id in db.rows && HasTuple(same, db.rows[id], input);
    assert HasTuple(same, Apply(same, text, db, op).rows[id], input);
  }

  /** In every run a tuple that a guild has once used stays taken: no later call schedules
      one that the collation takes for the same, whatever was cancelled in between. */
  lemma {:induction false} TupleStaysTaken(
      same: Collation, text: KeyText, states: seq<Db>, ops: seq<Op>, i: nat, j: nat, input: ScheduleInput)
    requires IsRun(same, text, states, ops) && i <= j < |states| && TupleTaken(same, states[i].rows, input)
    ensures TupleTaken(same, states[j].rows, input)
    ensures j < |ops| && ops[j].OpSchedule? && ops[j].input == input ==>
      ScheduleRecurring(same, states[j], input, ops[j].existing, ops[j].newId).1 == Some(UniqueViolation)
    decreases j
  {
    if i < j {
      TupleStaysTaken(same, text, states, ops, i, j - 1, input);
      assert Legal(same, text, states[j - 1], ops[j - 1]);
      StepKeepsTuple(same, text, states[j - 1], ops[j - 1], input);
    }
    if j < |ops| && ops[j].OpSchedule? && ops[j].input == input {
      assert Legal(same, text, states[j], ops[j]);
      StillTaken(same, states[j], input, ops[j].existing);
    }
  }

  lemma {:induction false} StillTaken(same: Collation, db: Db, input: ScheduleInput, existing: Option<string>)
    requires FoundByDedup(same, db.rows, input, existing)
    ensures TupleTaken(same, WithoutExisting(db, existing).rows, input) <==> TupleTaken(same, db.rows, input)
  {
    var cleared := WithoutExisting(db, existing);
    forall id ensures id in db.rows && HasTuple(same, db.rows[id], input)
                 <==> id in cleared.rows && HasTuple(same, cleared.rows[id], input) {
    }
  }

  // ---- a pass, one row at a time ----

  /** The state of a pass that has dealt with the active rows in `done`. */
  function PartWay(db: Db, byId: map<string, Listed>, done: set<string>): Db {
    Db(map id | id in db.rows ::
         if id in done && Stale(db.rows, byId, id) then db.rows[id].(bullJobId := Some(Repeat(KeyOf(id, db.rows[id]))))
         else db.rows[id],
       (set k | k in db.repeats && !(k.id in done && Replaced(db.rows, byId, k)))
         + (set id | id in db.rows && id in done && Stale(db.rows, byId, id) :: KeyOf(id, db.rows[id])))
  }

  /** What is found for an active row is a job of that row. */
  ghost predicate FindsOwn(db: Db, byId: map<string, Listed>) {
    forall id :: id in byId && LiveRecurring(db.rows, id) ==> byId[id].key.id == id
  }

  lemma {:induction false} PartWayNext(db: Db, byId: map<string, Listed>, done: set<string>, id: string)
    requires id !in done && LiveRecurring(db.rows, id) && FindsOwn(db, byId)
    ensures var before, after := PartWay(db, byId, done), PartWay(db, byId, done + {id});
            var key := KeyOf(id, db.rows[id]);
            && before.rows[id] == db.rows[id]
            && after.rows == (if Stale(db.rows, byId, id) then before.rows[id := db.rows[id].(bullJobId := Some(Repeat(key)))] else before.rows)
            && after.repeats == (if !Stale(db.rows, byId, id) then before.repeats
                                 else if id in byId then before.repeats - {byId[id].key} + {key}
                                 else before.repeats + {key})
  {
    var before, after := PartWay(db, byId, done), PartWay(db, byId, done + {id});
    forall k ensures k in after.repeats <==>
      (if Stale(db.rows, byId, id) && k == KeyOf(id, db.rows[id]) then true
       else if Stale(db.rows, byId, id) && id in byId && k == byId[id].key then false
       else k in before.repeats)
    {
      if k.id == id && k in db.repeats && k != KeyOf(id, db.rows[id]) {
        assert Replaced(db.rows, byId, k) <==> id in byId && byId[id].key == k && Stale(db.rows, byId, id);
      }
    }
  }

  lemma {:induction false} PartWayRow(db: Db, byId: map<string, Listed>, done: set<string>, id: string)
    requires id !in done && LiveRecurring(db.rows, id) && FindsOwn(db, byId)
    ensures RowReconciled(PartWay(db, byId, done), id, db.rows[id], Lookup(byId, id)) == PartWay(db, byId, done + {id})
  {
    PartWayNext(db, byId, done, id);
  }

  lemma {:induction false} RowsArePartWay(db: Db, byId: map<string, Listed>, active: seq<string>)
    requires Distinct(active) && FindsOwn(db, byId)
    requires forall i :: 0 <= i < |active| ==> active[i] in db.rows && LiveRecurring(db.rows, active[i])
    ensures RowsReconciled(db, active, byId) == PartWay(db, byId, Elements(active))
  {
    if active == [] {
      assert PartWay(db, byId, Elements(active)).rows == db.rows;
      assert PartWay(db, byId, Elements(active)).repeats == db.repeats;
    } else {
      var n := |active| - 1;
      RowsArePartWay(db, byId, active[..n]);
      NextIsNew(active, n);
      ElementsNext(active, n);
      PartWayRow(db, byId, Elements(active[..n]), active[n]);
      assert active[..n + 1] == active;
    }
  }

  lemma {:induction false} ActiveRowsExist(rows: map<string, Row>, active: seq<string>)
    requires Elements(active) == LiveIds(rows)
    ensures forall i :: 0 <= i < |active| ==> active[i] in rows && LiveRecurring(rows, active[i])
  {
    forall i | 0 <= i < |active| ensures LiveRecurring(rows, active[i]) {
      assert active[i] in Elements(active);
    }
  }

  /** The order in which the active rows were selected does not matter: the pass, row by
      row and then the orphans, is the one the theorems are about. */
  lemma {:induction false} PassIsReconciled(text: KeyText, db: Db, active: seq<string>, listing: seq<Listed>)
    requires Distinct(active) && Elements(active) == LiveIds(db.rows)
    requires Lists(listing, db.repeats) && Apart(text, db.rows)
    ensures forall i :: 0 <= i < |active| ==> active[i] in db.rows
    ensures Pass(db, active, ByScheduleId(text, listing)) == Reconciled(db, ByScheduleId(text, listing))
  {
    var byId := ByScheduleId(text, listing);
    ActiveRowsExist(db.rows, active);
    IndexMeans(text, listing);
    RowsArePartWay(db, byId, active);
    PartWayIsWhole(db, byId);
  }

  lemma {:induction false} PartWayIsWhole(db: Db, byId: map<string, Listed>)
    ensures var part := PartWay(db, byId, LiveIds(db.rows));
      part.(repeats := part.repeats - Orphans(byId, LiveIds(db.rows))) == Reconciled(db, byId)
  {
    var part := PartWay(db, byId, LiveIds(db.rows));
    assert part.rows == Reconciled(db, byId).rows;
    forall id ensures id in db.rows && id in LiveIds(db.rows) && Stale(db.rows, byId, id) <==> id in db.rows && Stale(db.rows, byId, id) {
    }
    assert part.repeats - Orphans(byId, LiveIds(db.rows)) == Reconciled(db, byId).repeats;
  }

  lemma {:induction false} OrphansLeft(byId: map<string, Listed>, active: set<string>)
    ensures Orphans(byId - active, {}) == Orphans(byId, active)
  {
    var left := byId - active;
    forall k ensures k in Orphans(left, {}) <==> k in Orphans(byId, active) {
      if k in Orphans(left, {}) {
        var x :| x in left && left[x].key == k;
        assert x in byId && x !in active && byId[x].key == k;
      }
      if k in Orphans(byId, active) {
        var x :| x in byId && x !in active && byId[x].key == k;
        assert x in left && x !in {};
      }
    }
  }

  lemma {:induction false} OrphansNext(orphans: map<string, Listed>, todo: set<string>, x: string)
    requires x in todo && x in orphans
    ensures Orphans(orphans, todo - {x}) == Orphans(orphans, todo) + {orphans[x].key}
  {
  }

  // ---- the service, the worker and the reconciler ----

  class Scheduler {
    const same: Collation
    const text: KeyText
    var rows: map<string, Row>
    var repeats: set<RepeatKey>
    var running: bool

    constructor (same: Collation, text: KeyText)
      ensures this.same == same && this.text == text && State() == Db(map[], {}) && !running
    {
      this.same, this.text := same, text;
      rows, repeats, running := map[], {}, false;
    }

    function State(): Db
      reads this
    {
      Db(rows, repeats)
    }

    /** The lookup of the row to replace; which one, if there are several, is left open. */
    method FindByDedup(input: ScheduleInput) returns (existing: Option<string>)
      ensures FoundByDedup(same, rows, input, existing)
      ensures existing.None? ==> forall id :: id in rows && EqualTuple(same, rows[id], input) ==> rows[id].deleted
      ensures existing.Some? ==>
        existing.value in rows && EqualTuple(same, rows[existing.value], input) && !rows[existing.value].deleted
    {
      var todo := rows.Keys;
      while todo != {}
        invariant todo <= rows.Keys
        invariant forall id :: id in rows && id !in todo ==> !HasTuple(same, rows[id], input) || rows[id].deleted
        decreases todo
      {
        var id :| id in todo;
        if HasTuple(same, rows[id], input) && !rows[id].deleted {
          return Some(id);
        }
        todo := todo - {id};
      }
      return None;
    }

    method RemoveFromQueue(row: Row)
      modifies this`repeats
      ensures repeats == Unqueued(old(repeats), row)
    {
      if row.bullJobId.None? {
        return;
      }
      if row.rowType == Recurring {
        match row.bullJobId.value
        case Repeat(key) => repeats := repeats - {key};
        case Job(_) =>
      }
    }

    method SoftDelete(id: string)
      requires id in rows
      modifies this`rows
      ensures rows == old(rows)[id := SoftDeleted(old(rows)[id])]
    {
      rows := rows[id := rows[id].(deleted := true, status := Cancelled)];
    }

    /** Inserting a row is refused when it breaks the unique key. */
    method Create(id: string, row: Row, input: ScheduleInput) returns (ok: bool)
      requires id !in rows && row == NewRow(input)
      modifies this`rows
      ensures ok <==> !TupleTaken(same, old(rows), input)
      ensures rows == if ok then old(rows)[id := row] else old(rows)
    {
      if input.guildId.Some? {
        var todo := rows.Keys;
        while todo != {}
          invariant todo <= rows.Keys && rows == old(rows)
          invariant forall i :: i in rows && i !in todo ==> !HasTuple(same, rows[i], input)
          decreases todo
        {
          var i :| i in todo;
          if HasTuple(same, rows[i], input) {
            return false;
          }
          todo := todo - {i};
        }
      }
      rows := rows[id := row];
      return true;
    }

    method EnqueueRecurring(id: string, row: Row) returns (key: RepeatKey)
      modifies this`repeats
      ensures key == KeyOf(id, row) && repeats == old(repeats) + {key}
      ensures key.kind == row.kind && key.id == id && RunsBy(key.rule, row.cron, row.everyMs, row.timezone)
    {
      var rule :=
        if row.cron.Some? && row.cron.value != "" then Pattern(row.cron.value, Some(row.timezone))
        else Every(if row.everyMs.Some? then row.everyMs.value else 60000);
      key := RepeatKey(row.kind, id, rule);
      repeats := repeats + {key};
    }

    method Schedule(input: ScheduleInput, newId: string) returns (error: Option<ScheduleError>, ghost existing: Option<string>)
      requires newId !in rows
      modifies this`rows, this`repeats
      ensures FoundByDedup(same, old(rows), input, existing)
      ensures (State(), error) == ScheduleRecurring(same, old(State()), input, existing, newId)
    {
      var found := FindByDedup(input);
      existing := found;
      if found.Some? {
        RemoveFromQueue(rows[found.value]);
        SoftDelete(found.value);
      }
      var row := NewRow(input);
      var created := Create(newId, row, input);
      if !created {
        return Some(UniqueViolation), existing;
      }
      var key := EnqueueRecurring(newId, row);
      rows := rows[newId := row.(bullJobId := Some(Repeat(key)))];
      return None, existing;
    }

    method CancelJob(id: string, guildId: Option<string>) returns (error: Option<ScheduleError>)
      modifies this`rows, this`repeats
      ensures (State(), error) == Cancel(old(State()), id, guildId)
    {
      if !(id in rows && !rows[id].deleted && rows[id].guildId == guildId) {
        return Some(NotFound);
      }
      RemoveFromQueue(rows[id]);
      SoftDelete(id);
      return None;
    }

    method PauseJob(id: string, guildId: Option<string>) returns (error: Option<ScheduleError>)
      modifies this`rows, this`repeats
      ensures (State(), error) == Pause(old(State()), id, guildId)
    {
      if !(id in rows && !rows[id].deleted && rows[id].guildId == guildId) {
        return Some(NotFound);
      }
      if rows[id].rowType != Recurring {
        return Some(BadRequest);
      }
      RemoveFromQueue(rows[id]);
      rows := rows[id := rows[id].(status := Paused, bullJobId := None)];
      return None;
    }

    method ResumeJob(id: string, guildId: Option<string>) returns (error: Option<ScheduleError>)
      modifies this`rows, this`repeats
      ensures (State(), error) == Resume(old(State()), id, guildId)
    {
      if !(id in rows && !rows[id].deleted && rows[id].guildId == guildId) {
        return Some(NotFound);
      }
      if rows[id].status != Paused {
        return Some(BadRequest);
      }
      var key := EnqueueRecurring(id, rows[id]);
      rows := rows[id := rows[id].(status := Active, bullJobId := Some(Repeat(key)))];
      assert rows == Resume(old(State()), id, guildId).0.rows;
      return None;
    }

    /** The row's part of processing a job whose handler is known. */
    method Process(id: string, attemptsMade: nat, maxAttempts: int, succeeded: bool)
      requires id in rows
      modifies this`rows
      ensures State() == Outcome(old(State()), id, attemptsMade + 1, maxAttempts, succeeded)
    {
      var attempt := attemptsMade + 1;
      if succeeded {
        if !rows[id].deleted && rows[id].rowType == Once {
          rows := rows[id := rows[id].(status := Completed)];
        }
      } else {
        var willRetry := attempt < maxAttempts;
        if !willRetry {
          rows := rows[id := rows[id].(status := Failed)];
        }
      }
    }

    /** The listed jobs by schedule id, or by key where the id is missing. */
    method IndexListing(listing: seq<Listed>) returns (byScheduleId: map<string, Listed>)
      ensures byScheduleId == ByScheduleId(text, listing)
    {
      byScheduleId := map[];
      Prefixes(listing);
      for i := 0 to |listing|
        invariant byScheduleId == ByScheduleId(text, listing[..i])
      {
        var r := listing[i];
        IndexLonger(text, listing[..i], r, listing[..i + 1]);
        byScheduleId := byScheduleId[(if r.id.Some? then r.id.value else text(r.key)) := r];
      }
    }

    /** One active row: registered if it is missing, registered anew if it has drifted. */
    method ReconcileRow(id: string, row: Row, existing: Option<RepeatKey>)
      modifies this`rows, this`repeats
      ensures State() == RowReconciled(old(State()), id, row, existing)
    {
      if existing.None? {
        var key := EnqueueRecurring(id, row);
        rows := rows[id := row.(bullJobId := Some(Repeat(key)))];
      } else if HasDrifted(row, existing.value) {
        repeats := repeats - {existing.value};
        var key := EnqueueRecurring(id, row);
        rows := rows[id := row.(bullJobId := Some(Repeat(key)))];
      }
    }

    /** The rows as selected; what is left of the index is returned. */
    method ReconcileRows(active: seq<string>, byId: map<string, Listed>) returns (left: map<string, Listed>)
      requires Distinct(active) && forall i :: 0 <= i < |active| ==> active[i] in rows
      modifies this`rows, this`repeats
      ensures left == byId - Elements(active)
      ensures State() == RowsReconciled(old(State()), active, byId)
    {
      var selected := rows;
      left := byId;
      ghost var done: set<string> := {};
      for i := 0 to |active|
        invariant done == Elements(active[..i]) && left == byId - done
        invariant State() == RowsReconciled(old(State()), active[..i], byId)
      {
        var id := active[i];
        NextIsNew(active, i);
        ElementsNext(active, i);
        MinusMore(byId, done, id);
        assert active[..i + 1][..i] == active[..i];
        assert id in left <==> id in byId;
        ReconcileRow(id, selected[id], if id in left then Some(left[id].key) else None);
        left := left - {id};
        done := done + {id};
      }
      assert active[..|active|] == active;
    }

    /** The jobs that no active row claimed are removed. */
    method RemoveOrphans(orphans: map<string, Listed>)
      modifies this`repeats
      ensures repeats == old(repeats) - Orphans(orphans, {})
    {
      var todo := orphans.Keys;
      while todo != {}
        invariant todo <= orphans.Keys
        invariant repeats == old(repeats) - Orphans(orphans, todo)
        decreases todo
      {
        var x :| x in todo;
        repeats := repeats - {orphans[x].key};
        OrphansNext(orphans, todo, x);
        todo := todo - {x};
      }
    }

    /** One pass over the active recurring rows, in the order of their selection, and the
        jobs as the queue lists them; none while another is running. */
    method Reconcile(active: seq<string>, listing: seq<Listed>)
      requires Distinct(active) && Elements(active) == LiveIds(rows)
      requires forall i :: 0 <= i < |active| ==> active[i] in rows
      modifies this
      ensures running == old(running)
      ensures State() == if running then old(State()) else Pass(old(State()), active, ByScheduleId(text, listing))
    {
      if running {
        return;
      }
      running := true;
      var byScheduleId := IndexListing(listing);
      var left := ReconcileRows(active, byScheduleId);
      RemoveOrphans(left);
      OrphansLeft(byScheduleId, Elements(active));
      running := false;
    }

    /** The rows of a deleted guild are soft-deleted, and then their jobs removed. */
    method OnGuildDeleted(guildId: string)
      modifies this`rows, this`repeats
      ensures State() == GuildDeleted(old(State()), guildId)
    {
      var affected := map id | id in rows && Affected(rows[id], guildId) :: rows[id];
      ghost var before := State();
      HeldAmongAffected(rows, guildId, affected);
      rows := map id | id in rows :: if id in affected then SoftDeleted(rows[id]) else rows[id];
      assert rows == GuildDeleted(before, guildId).rows;
      var todo := affected.Keys;
      while todo != {}
        invariant todo <= affected.Keys && rows == GuildDeleted(before, guildId).rows
        invariant repeats == old(repeats) - HeldAmong(affected, affected.Keys - todo)
        decreases todo
      {
        var id :| id in todo;
        RemoveFromQueue(affected[id]);
        HeldAmongNext(affected, affected.Keys - todo, id);
        assert affected.Keys - (todo - {id}) == affected.Keys - todo + {id};
        todo := todo - {id};
      }
      assert affected.Keys - todo == affected.Keys;
    }
  }
}
