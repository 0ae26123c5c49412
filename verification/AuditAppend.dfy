/**
 Concurrent appends to one audit chain: a step is one database call of one process, and
 a run is any interleaving of steps.
 */
module AuditAppend {
  import opened Prelude
  import opened Utf16
  import opened AuditHash
  import opened AuditChain
  import opened AuditRepository

  // Each process queues its appends behind the chain's lock. An append reads the tail,
  // hashes the draft against it, inserts under the table's unique indexes and starts over
  // on a conflict, at most this often.
  const MAX_APPEND_ATTEMPTS := 5

  /** An append between lock and outcome. `begunAt` is the number of rows when it began. */
  datatype Active =
    | Idle
    | Reading(draft: Draft, attempt: nat, begunAt: nat)
    | Inserting(draft: Draft, attempt: nat, begunAt: nat, seqNo: int, previousHash: Option<Text>, hash: Text)

  datatype Process = Process(waiting: seq<Draft>, active: Active)

  datatype Outcome = Stored(process: nat, entry: Entry) | Failed(process: nat, draft: Draft, begunAt: nat, rowsThen: nat)

  /** `rows` in order of insertion; `submitted` and `log` record what was asked for and
      what came of it. */
  datatype Config = Config(
    rows: seq<Entry>,
    processes: seq<Process>,
    submitted: seq<seq<Draft>>,
    log: seq<Outcome>)

  /** One step of the process with the given number. `tail` picks a row with the
      greatest seq where several have it. */
  datatype Step =
    | Submit(process: nat, draft: Draft)
    | Begin(process: nat)
    | ReadTail(process: nat, tail: nat)
    | Insert(process: nat, id: Text, now: int)

  predicate IsTail(rows: seq<Entry>, tail: nat) {
    if rows == [] then tail == 0
    else tail < |rows| && forall e <- rows :: e.seqNo <= rows[tail].seqNo
  }

  predicate Enabled(c: Config, step: Step) {
    && step.process < |c.processes| == |c.submitted|
    && match step
       case Submit(_, _) => true
       case Begin(p) => c.processes[p].active.Idle? && c.processes[p].waiting != []
       case ReadTail(p, tail) => c.processes[p].active.Reading? && IsTail(c.rows, tail)
       case Insert(p, _, _) => c.processes[p].active.Inserting?
  }

  /** The unique indexes refuse the row. Seqs are unique only where `guarded`: on chains
      with a guild, since NULLs count as distinct. */
  predicate Refused(rows: seq<Entry>, guarded: bool, seqNo: int, hash: Text) {
    exists e <- rows :: (guarded && e.seqNo == seqNo) || e.hash == hash
  }

  function WithActive(c: Config, p: nat, a: Active): Config
    requires p < |c.processes|
  {
    c.(processes := c.processes[p := c.processes[p].(active := a)])
  }

  function Next(h: Hasher, guarded: bool, c: Config, step: Step): Config
    requires Enabled(c, step)
  {
    var p, process := step.process, c.processes[step.process];
    match step
    case Submit(_, draft) =>
      c.(processes := c.processes[p := process.(waiting := process.waiting + [draft])],
         submitted := c.submitted[p := c.submitted[p] + [draft]])
    case Begin(_) =>
      c.(processes := c.processes[p := Process(process.waiting[1..], Reading(process.waiting[0], 1, |c.rows|))])
    case ReadTail(_, tail) =>
      var a := process.active;
      var seqNo := if c.rows == [] then 1 else c.rows[tail].seqNo + 1;
      var previousHash := if c.rows == [] then None else Some(c.rows[tail].hash);
      WithActive(c, p, Inserting(a.draft, a.attempt, a.begunAt, seqNo, previousHash, h(a.draft, seqNo, previousHash)))
    case Insert(_, id, now) =>
      var a := process.active;
      if !Refused(c.rows, guarded, a.seqNo, a.hash) then
        var e := Entry(id, a.draft, a.seqNo, a.previousHash, a.hash, now);
        WithActive(c, p, Idle).(rows := c.rows + [e], log := c.log + [Stored(p, e)])
      else if a.attempt < MAX_APPEND_ATTEMPTS then
        WithActive(c, p, Reading(a.draft, a.attempt + 1, a.begunAt))
      else
        WithActive(c, p, Idle).(log := c.log + [Failed(p, a.draft, a.begunAt, |c.rows|)])
  }

  ghost predicate Initial(c: Config, rows: seq<Entry>) {
    && c.rows == rows && c.log == [] && |c.processes| == |c.submitted|
    && (forall p <- c.processes :: p == Process([], Idle))
    && (forall s <- c.submitted :: s == [])
  }

  /** `steps` can be taken from `c`, each where the one before left off. */
  ghost predicate Runs(h: Hasher, guarded: bool, c: Config, steps: seq<Step>)
    decreases |steps|
  {
    steps == [] || (Enabled(c, steps[0]) && Runs(h, guarded, Next(h, guarded, c, steps[0]), steps[1..]))
  }

  function After(h: Hasher, guarded: bool, c: Config, steps: seq<Step>): Config
    requires Runs(h, guarded, c, steps)
    decreases |steps|
  {
    if steps == [] then c else After(h, guarded, Next(h, guarded, c, steps[0]), steps[1..])
  }

  // ---- the invariant ----

  /** Rows with distinct seqs have distinct hashes. */
  ghost predicate SeqBinding(h: Hasher) {
    forall d, n, p, d', n', p' {:trigger h(d, n, p), h(d', n', p')} :: h(d, n, p) == h(d', n', p') ==> n == n'
  }

  /** An insert that saw the first `seen` rows carries what they determine, and has lost
      at most one attempt for each row that came between. */
  ghost predicate SawPrefix(h: Hasher, rows: seq<Entry>, a: Active, seen: nat)
    requires a.Inserting?
  {
    && a.begunAt + (a.attempt - 1) <= seen <= |rows|
    && a.seqNo == NextSeq(rows[..seen]) && a.previousHash == TailHash(rows[..seen])
    && a.hash == h(a.draft, a.seqNo, a.previousHash)
  }

  ghost predicate ActiveOk(h: Hasher, rows: seq<Entry>, a: Active) {
    match a
    case Idle => true
    case Reading(_, attempt, begunAt) =>
      1 <= attempt <= MAX_APPEND_ATTEMPTS && begunAt + (attempt - 1) <= |rows|
    case Inserting(_, attempt, _, _, _, _) =>
      1 <= attempt <= MAX_APPEND_ATTEMPTS && exists seen: nat :: SawPrefix(h, rows, a, seen)
  }

  function StoredEntries(log: seq<Outcome>): seq<Entry> {
    if log == [] then []
    else
      var rest := StoredEntries(log[..|log| - 1]);
      if log[|log| - 1].Stored? then rest + [log[|log| - 1].entry] else rest
  }

  function DraftOf(o: Outcome): Draft {
    match o
    case Stored(_, entry) => entry.draft
    case Failed(_, draft, _, _) => draft
  }

  /** The drafts of one process whose outcome is known, in order. */
  function Settled(log: seq<Outcome>, p: nat): seq<Draft> {
    if log == [] then []
    else
      var rest := Settled(log[..|log| - 1], p);
      if log[|log| - 1].process == p then rest + [DraftOf(log[|log| - 1])] else rest
  }

  function InProgress(process: Process): seq<Draft> {
    (if process.active.Idle? then [] else [process.active.draft]) + process.waiting
  }

  /** A failed append met five rows that others inserted while it was trying. */
  ghost predicate FailuresEarned(log: seq<Outcome>) {
    forall o <- log :: o.Failed? ==> o.begunAt + 5 <= o.rowsThen
  }

  /** With one process, an append never works from a stale tail. */
  ghost predicate NeverStale(h: Hasher, rows: seq<Entry>, a: Active) {
    && (a.Reading? ==> a.attempt == 1)
    && (a.Inserting? ==> a.attempt == 1 && SawPrefix(h, rows, a, |rows|))
  }

  ghost predicate NoFailure(log: seq<Outcome>) {
    forall o <- log :: o.Stored?
  }

  ghost predicate RowsOk(h: Hasher, anchor: Option<Anchor>, initialRows: seq<Entry>, c: Config) {
    && Intact(h, c.rows, anchor)
    && c.rows == initialRows + StoredEntries(c.log)
    && (initialRows == [] && c.rows != [] ==> c.rows[0].seqNo == 1)
  }

  ghost predicate ProcessOk(h: Hasher, initialRows: seq<Entry>, c: Config, p: nat)
    requires p < |c.processes| == |c.submitted|
  {
    var a := c.processes[p].active;
    && ActiveOk(h, c.rows, a)
    && (!a.Idle? ==> |initialRows| <= a.begunAt)
    && (|c.processes| == 1 ==> NeverStale(h, c.rows, a))
    && c.submitted[p] == Settled(c.log, p) + InProgress(c.processes[p])
  }

  ghost predicate Inv(h: Hasher, anchor: Option<Anchor>, initialRows: seq<Entry>, c: Config) {
    && |c.processes| == |c.submitted|
    && RowsOk(h, anchor, initialRows, c)
    && (forall p :: 0 <= p < |c.processes| ==> ProcessOk(h, initialRows, c, p))
    && FailuresEarned(c.log)
    && (|c.processes| == 1 ==> NoFailure(c.log))
  }

  lemma {:induction false} LogGrows(log: seq<Outcome>, o: Outcome, p: nat)
    ensures StoredEntries(log + [o]) == StoredEntries(log) + (if o.Stored? then [o.entry] else [])
    ensures Settled(log + [o], p) == Settled(log, p) + (if o.process == p then [DraftOf(o)] else [])
  {
    assert (log + [o])[..|log|] == log;
  }

  /** Rows added behind an append leave it as it was. */
  lemma {:induction false} ActiveSurvivesRow(h: Hasher, rows: seq<Entry>, e: Entry, a: Active)
    requires ActiveOk(h, rows, a)
    ensures ActiveOk(h, rows + [e], a)
  {
    if a.Inserting? {
      var seen: nat :| SawPrefix(h, rows, a, seen);
      assert (rows + [e])[..seen] == rows[..seen];
      assert SawPrefix(h, rows + [e], a, seen);
    }
  }

  /** In a chain numbered without gaps, a seq derived from a proper prefix is taken, and
      one derived from the whole is not. */
  lemma {:induction false} OnlyTheTailIsFree(
      h: Hasher, rows: seq<Entry>, anchor: Option<Anchor>, a: Active, seen: nat)
    requires Intact(h, rows, anchor) && a.Inserting? && SawPrefix(h, rows, a, seen)
    requires seen == 0 && rows != [] ==> rows[0].seqNo == 1
    ensures (exists e <- rows :: e.seqNo == a.seqNo) <==> seen < |rows|
  {
    if rows != [] {
      IntactIsContiguous(h, rows, anchor);
      if seen < |rows| {
        assert rows[seen] in rows && rows[seen].seqNo == a.seqNo;
      }
    }
  }

  lemma {:induction false} FreeSeqMeansFreshHash(h: Hasher, rows: seq<Entry>, anchor: Option<Anchor>, a: Active)
    requires SeqBinding(h) && Intact(h, rows, anchor)
    requires a.Inserting? && a.hash == h(a.draft, a.seqNo, a.previousHash)
    requires forall e <- rows :: e.seqNo != a.seqNo
    ensures forall e <- rows :: e.hash != a.hash
  {
    forall e | e in rows ensures e.hash != a.hash {
      var i :| 0 <= i < |rows| && rows[i] == e;
      assert Rehashes(h, rows[i]);
    }
  }

  lemma {:induction false} InitialInv(h: Hasher, anchor: Option<Anchor>, c: Config, rows: seq<Entry>)
    requires Initial(c, rows) && Intact(h, rows, anchor)
    ensures Inv(h, anchor, rows, c)
  {
    forall p | 0 <= p < |c.processes| ensures ProcessOk(h, rows, c, p) {
      assert c.processes[p] in c.processes && c.submitted[p] in c.submitted;
    }
  }

  lemma {:induction false} SubmitKeeps(h: Hasher, guarded: bool, anchor: Option<Anchor>, rows0: seq<Entry>, c: Config, step: Step)
    requires Inv(h, anchor, rows0, c) && Enabled(c, step) && step.Submit?
    ensures Inv(h, anchor, rows0, Next(h, guarded, c, step))
  {
    var c' := Next(h, guarded, c, step);
    forall p | 0 <= p < |c'.processes| ensures ProcessOk(h, rows0, c', p) {
      assert ProcessOk(h, rows0, c, p);
    }
  }

  lemma {:induction false} BeginKeeps(h: Hasher, guarded: bool, anchor: Option<Anchor>, rows0: seq<Entry>, c: Config, step: Step)
    requires Inv(h, anchor, rows0, c) && Enabled(c, step) && step.Begin?
    ensures Inv(h, anchor, rows0, Next(h, guarded, c, step))
  {
    var c' := Next(h, guarded, c, step);
    forall p | 0 <= p < |c'.processes| ensures ProcessOk(h, rows0, c', p) {
      assert ProcessOk(h, rows0, c, p);
      if p == step.process {
        assert InProgress(c'.processes[p]) == InProgress(c.processes[p]);
      }
    }
  }

  /** The row with the greatest seq of a chain without gaps is its last. */
  lemma {:induction false} TailIsLast(h: Hasher, rows: seq<Entry>, anchor: Option<Anchor>, tail: nat)
    requires Intact(h, rows, anchor) && IsTail(rows, tail) && rows != []
    ensures tail == |rows| - 1
  {
    IntactIsContiguous(h, rows, anchor);
    assert rows[|rows| - 1] in rows;
  }

  lemma {:induction false} ReadKeeps(h: Hasher, guarded: bool, anchor: Option<Anchor>, rows0: seq<Entry>, c: Config, step: Step)
    requires Inv(h, anchor, rows0, c) && Enabled(c, step) && step.ReadTail?
    ensures Inv(h, anchor, rows0, Next(h, guarded, c, step))
  {
    var c' := Next(h, guarded, c, step);
    assert ProcessOk(h, rows0, c, step.process);
    if c.rows != [] {
      TailIsLast(h, c.rows, anchor, step.tail);
    }
    assert c.rows[..|c.rows|] == c.rows;
    assert SawPrefix(h, c'.rows, c'.processes[step.process].active, |c.rows|);
    forall p | 0 <= p < |c'.processes| ensures ProcessOk(h, rows0, c', p) {
      assert ProcessOk(h, rows0, c, p);
    }
  }

  lemma {:induction false} InsertKeeps(h: Hasher, guarded: bool, anchor: Option<Anchor>, rows0: seq<Entry>, c: Config, step: Step)
    requires SeqBinding(h) && (guarded || |c.processes| <= 1)
    requires Inv(h, anchor, rows0, c) && Enabled(c, step) && step.Insert?
    ensures Inv(h, anchor, rows0, Next(h, guarded, c, step))
  {
    var a := c.processes[step.process].active;
    assert ProcessOk(h, rows0, c, step.process);
    var seen: nat := |c.rows|;
    if |c.processes| != 1 {
      seen :| SawPrefix(h, c.rows, a, seen);
    }
    OnlyTheTailIsFree(h, c.rows, anchor, a, seen);
    if seen == |c.rows| {
      FreeSeqMeansFreshHash(h, c.rows, anchor, a);
      InsertStores(h, guarded, anchor, rows0, c, step);
    } else {
      InsertConflicts(h, guarded, anchor, rows0, c, step, seen);
    }
  }

  lemma {:induction false} InsertStores(h: Hasher, guarded: bool, anchor: Option<Anchor>, rows0: seq<Entry>, c: Config, step: Step)
    requires Inv(h, anchor, rows0, c) && Enabled(c, step) && step.Insert?
    requires SawPrefix(h, c.rows, c.processes[step.process].active, |c.rows|)
    requires !Refused(c.rows, guarded, c.processes[step.process].active.seqNo, c.processes[step.process].active.hash)
    ensures Inv(h, anchor, rows0, Next(h, guarded, c, step))
  {
    var c' := Next(h, guarded, c, step);
    var a := c.processes[step.process].active;
    var e := Entry(step.id, a.draft, a.seqNo, a.previousHash, a.hash, step.now);
    assert c.rows[..|c.rows|] == c.rows;
    NextKeepsIntact(h, c.rows, anchor, e);
    LogGrows(c.log, Stored(step.process, e), 0);
    Regroup3(rows0, StoredEntries(c.log), [e]);
    forall p | 0 <= p < |c'.processes| ensures ProcessOk(h, rows0, c', p) {
      StoresProcess(h, guarded, rows0, c, step, p);
    }
  }

  lemma {:induction false} StoresProcess(h: Hasher, guarded: bool, rows0: seq<Entry>, c: Config, step: Step, p: nat)
    requires Enabled(c, step) && step.Insert? && p < |c.processes| && ProcessOk(h, rows0, c, p)
    requires !Refused(c.rows, guarded, c.processes[step.process].active.seqNo, c.processes[step.process].active.hash)
    ensures ProcessOk(h, rows0, Next(h, guarded, c, step), p)
  {
    var a := c.processes[step.process].active;
    var e := Entry(step.id, a.draft, a.seqNo, a.previousHash, a.hash, step.now);
    LogGrows(c.log, Stored(step.process, e), p);
    if p != step.process {
      ActiveSurvivesRow(h, c.rows, e, c.processes[p].active);
    } else {
      Regroup3(Settled(c.log, p), [a.draft], c.processes[p].waiting);
    }
  }

  lemma {:induction false} InsertConflicts(
      h: Hasher, guarded: bool, anchor: Option<Anchor>, rows0: seq<Entry>, c: Config, step: Step, seen: nat)
    requires Inv(h, anchor, rows0, c) && Enabled(c, step) && step.Insert? && |c.processes| != 1
    requires seen < |c.rows| && SawPrefix(h, c.rows, c.processes[step.process].active, seen)
    requires Refused(c.rows, guarded, c.processes[step.process].active.seqNo, c.processes[step.process].active.hash)
    ensures Inv(h, anchor, rows0, Next(h, guarded, c, step))
  {
    var c' := Next(h, guarded, c, step);
    var a := c.processes[step.process].active;
    assert ProcessOk(h, rows0, c, step.process);
    LogGrows(c.log, Failed(step.process, a.draft, a.begunAt, |c.rows|), 0);
    forall p | 0 <= p < |c'.processes| ensures ProcessOk(h, rows0, c', p) {
      ConflictsProcess(h, guarded, rows0, c, step, seen, p);
    }
  }

  /** What a refused insert leaves of the process that made it. */
  lemma {:induction false} ConflictRetries(
      h: Hasher, guarded: bool, rows0: seq<Entry>, c: Config, step: Step, seen: nat)
    requires Enabled(c, step) && step.Insert? && |c.processes| != 1
    requires ProcessOk(h, rows0, c, step.process)
    requires seen < |c.rows| && SawPrefix(h, c.rows, c.processes[step.process].active, seen)
    requires Refused(c.rows, guarded, c.processes[step.process].active.seqNo, c.processes[step.process].active.hash)
    requires c.processes[step.process].active.attempt < MAX_APPEND_ATTEMPTS
    ensures ProcessOk(h, rows0, Next(h, guarded, c, step), step.process)
  {
    var a := c.processes[step.process].active;
    var c' := WithActive(c, step.process, Reading(a.draft, a.attempt + 1, a.begunAt));
    assert Next(h, guarded, c, step) == c';
    assert InProgress(c'.processes[step.process]) == InProgress(c.processes[step.process]);
  }

  /** What is settled moves from the process to the log. */
  lemma {:induction false} SettledMoves(log: seq<Outcome>, o: Outcome, waiting: seq<Draft>)
    ensures Settled(log + [o], o.process) + waiting == Settled(log, o.process) + ([DraftOf(o)] + waiting)
  {
    LogGrows(log, o, o.process);
    Regroup3(Settled(log, o.process), [DraftOf(o)], waiting);
  }

  lemma {:induction false} GivenUp(h: Hasher, rows0: seq<Entry>, c: Config, p: nat, o: Outcome)
    requires p < |c.processes| == |c.submitted| && |c.processes| != 1 && ProcessOk(h, rows0, c, p)
    requires !c.processes[p].active.Idle? && o.process == p && DraftOf(o) == c.processes[p].active.draft
    ensures ProcessOk(h, rows0, WithActive(c, p, Idle).(log := c.log + [o]), p)
  {
    SettledMoves(c.log, o, c.processes[p].waiting);
    assert InProgress(Process(c.processes[p].waiting, Idle)) == c.processes[p].waiting;
  }

  lemma {:induction false} ConflictGivesUp(
      h: Hasher, guarded: bool, rows0: seq<Entry>, c: Config, step: Step)
    requires Enabled(c, step) && step.Insert? && |c.processes| != 1
    requires ProcessOk(h, rows0, c, step.process)
    requires Refused(c.rows, guarded, c.processes[step.process].active.seqNo, c.processes[step.process].active.hash)
    requires c.processes[step.process].active.attempt == MAX_APPEND_ATTEMPTS
    ensures ProcessOk(h, rows0, Next(h, guarded, c, step), step.process)
  {
    var p, a := step.process, c.processes[step.process].active;
    GivenUp(h, rows0, c, p, Failed(p, a.draft, a.begunAt, |c.rows|));
  }

  /** A refused insert leaves the other processes, and how their drafts ended, alone. */
  lemma {:induction false} ConflictOfAnother(
      h: Hasher, guarded: bool, rows0: seq<Entry>, c: Config, step: Step, p: nat)
    requires Enabled(c, step) && step.Insert? && p != step.process
    requires p < |c.processes| && ProcessOk(h, rows0, c, p)
    requires Refused(c.rows, guarded, c.processes[step.process].active.seqNo, c.processes[step.process].active.hash)
    ensures ProcessOk(h, rows0, Next(h, guarded, c, step), p)
  {
    var a, c' := c.processes[step.process].active, Next(h, guarded, c, step);
    LogGrows(c.log, Failed(step.process, a.draft, a.begunAt, |c.rows|), p);
    assert c'.processes[p] == c.processes[p] && c'.rows == c.rows && c'.submitted == c.submitted;
    assert Settled(c'.log, p) == Settled(c.log, p);
  }

  lemma {:induction false} ConflictsProcess(
      h: Hasher, guarded: bool, rows0: seq<Entry>, c: Config, step: Step, seen: nat, p: nat)
    requires Enabled(c, step) && step.Insert? && |c.processes| != 1
    requires p < |c.processes| && ProcessOk(h, rows0, c, p)
    requires seen < |c.rows| && SawPrefix(h, c.rows, c.processes[step.process].active, seen)
    requires Refused(c.rows, guarded, c.processes[step.process].active.seqNo, c.processes[step.process].active.hash)
    ensures ProcessOk(h, rows0, Next(h, guarded, c, step), p)
  {
    if p != step.process {
      ConflictOfAnother(h, guarded, rows0, c, step, p);
    } else if c.processes[p].active.attempt < MAX_APPEND_ATTEMPTS {
      ConflictRetries(h, guarded, rows0, c, step, seen);
    } else {
      ConflictGivesUp(h, guarded, rows0, c, step);
    }
  }

  lemma {:induction false} StepKeeps(h: Hasher, guarded: bool, anchor: Option<Anchor>, rows0: seq<Entry>, c: Config, step: Step)
    requires SeqBinding(h) && (guarded || |c.processes| <= 1)
    requires Inv(h, anchor, rows0, c) && Enabled(c, step)
    ensures Inv(h, anchor, rows0, Next(h, guarded, c, step))
  {
    match step
    case Submit(_, _) => SubmitKeeps(h, guarded, anchor, rows0, c, step);
    case Begin(_) => BeginKeeps(h, guarded, anchor, rows0, c, step);
    case ReadTail(_, _) => ReadKeeps(h, guarded, anchor, rows0, c, step);
    case Insert(_, _, _) => InsertKeeps(h, guarded, anchor, rows0, c, step);
  }

  // ---- the results ----

  lemma {:induction false} RunKeeps(
      h: Hasher, guarded: bool, anchor: Option<Anchor>, rows0: seq<Entry>, c: Config, steps: seq<Step>)
    requires SeqBinding(h) && (guarded || |c.processes| <= 1)
    requires Inv(h, anchor, rows0, c) && Runs(h, guarded, c, steps)
    ensures Inv(h, anchor, rows0, After(h, guarded, c, steps))
    ensures |After(h, guarded, c, steps).processes| == |c.processes|
    decreases |steps|
  {
    if steps != [] {
      StepKeeps(h, guarded, anchor, rows0, c, steps[0]);
      RunKeeps(h, guarded, anchor, rows0, Next(h, guarded, c, steps[0]), steps[1..]);
    }
  }

  /** In every interleaving, on a chain with a guild or with a single process, the table
      is the initial chain followed by exactly the drafts reported stored, once each and
      in order, still linked and numbered without gaps; every submitted draft is stored,
      failed or still queued, in order; an append fails only after five rows of other
      processes were stored while it tried; and the insert of a single process is derived
      from the present tail and never refused, so that it never fails. */
  lemma {:induction false} EveryInterleavingIsSafe(
      h: Hasher, guarded: bool, anchor: Option<Anchor>, rows0: seq<Entry>, c: Config, steps: seq<Step>)
    requires SeqBinding(h) && Intact(h, rows0, anchor) && Initial(c, rows0)
    requires Runs(h, guarded, c, steps) && (guarded || |c.processes| <= 1)
    ensures var end := After(h, guarded, c, steps);
      && Intact(h, end.rows, anchor) && UniqueSeqs(end.rows)
      && (forall i :: 0 <= i < |end.rows| ==> end.rows[i].seqNo == end.rows[0].seqNo + i)
      && end.rows == rows0 + StoredEntries(end.log)
      && |end.submitted| == |end.processes| == |c.processes|
      && (forall p :: 0 <= p < |end.processes| ==>
            end.submitted[p] == Settled(end.log, p) + InProgress(end.processes[p]))
      && FailuresEarned(end.log)
      && (|c.processes| == 1 ==>
            && NoFailure(end.log)
            && NeverStale(h, end.rows, end.processes[0].active)
            && NeverRefused(guarded, end.rows, end.processes[0].active))
  {
    InitialInv(h, anchor, c, rows0);
    RunKeeps(h, guarded, anchor, rows0, c, steps);
    var end := After(h, guarded, c, steps);
    IntactIsContiguous(h, end.rows, anchor);
    forall p | 0 <= p < |end.processes|
      ensures end.submitted[p] == Settled(end.log, p) + InProgress(end.processes[p])
    {
      assert ProcessOk(h, rows0, end, p);
    }
    if |c.processes| == 1 {
      assert ProcessOk(h, rows0, end, 0);
      FreshInsertIsTaken(h, guarded, end.rows, anchor, end.processes[0].active);
    }
  }

  predicate NeverRefused(guarded: bool, rows: seq<Entry>, a: Active) {
    a.Inserting? ==> !Refused(rows, guarded, a.seqNo, a.hash)
  }

  lemma {:induction false} FreshInsertIsTaken(h: Hasher, guarded: bool, rows: seq<Entry>, anchor: Option<Anchor>, a: Active)
    requires SeqBinding(h) && Intact(h, rows, anchor) && NeverStale(h, rows, a)
    ensures NeverRefused(guarded, rows, a)
  {
    if a.Inserting? {
      OnlyTheTailIsFree(h, rows, anchor, a, |rows|);
      FreeSeqMeansFreshHash(h, rows, anchor, a);
    }
  }

  /** `computeHash` gives rows with distinct seqs distinct hashes. */
  lemma {:induction false} ComputeHashBindsSeq(c: Hashing)
    requires CollisionFree(c)
    ensures SeqBinding(HasherOf(c))
  {
    forall d, n, p, d', n', p' | ComputeHash(c, d, n, p) == ComputeHash(c, d', n', p') ensures n == n' {
      HashDeterminesSeq(c, d, n, p, d', n', p');
    }
  }

  /** Two processes that read one tail at once and insert their own drafts. */
  function Race(x: Draft, y: Draft, tail: nat): seq<Step> {
    [ Submit(0, x), Submit(1, y), Begin(0), Begin(1), ReadTail(0, tail), ReadTail(1, tail),
      Insert(0, [], 0), Insert(1, [], 0) ]
  }

  /** The position of the last row, or 0. */
  function Last(rows: seq<Entry>): nat {
    if rows == [] then 0 else |rows| - 1
  }

  /** A chain and `n` idle processes. */
  function Fresh(rows: seq<Entry>, n: nat): Config {
    Config(rows, seq(n, i => Process([], Idle)), seq(n, i => []), [])
  }

  /** The entry that the draft becomes behind the tail of the rows. */
  function Raced(h: Hasher, rows: seq<Entry>, draft: Draft): Entry {
    NextEntry(h, rows, [], draft, 0)
  }

  function RacedRows(h: Hasher, rows: seq<Entry>, x: Draft, y: Draft): seq<Entry> {
    rows + [Raced(h, rows, x)] + [Raced(h, rows, y)]
  }

  lemma {:induction false} RacedRowsAreForked(h: Hasher, rows: seq<Entry>, x: Draft, y: Draft)
    ensures forall anchor :: !Intact(h, RacedRows(h, rows, x, y), anchor)
  {
    assert !LinkedAt(RacedRows(h, rows, x, y), |rows| + 1);
  }

  /** On any intact chain without a guild, where the seq index does not bind, that race
      stores two rows with the next seq: the chain forks, and what is stored is not intact
      from then on. */
  lemma {:induction false} GlobalChainForks(h: Hasher, rows: seq<Entry>, n: nat, x: Draft, y: Draft, anchor: Option<Anchor>)
    requires SeqBinding(h) && Intact(h, rows, anchor) && n >= 2
    requires Raced(h, rows, x).hash != Raced(h, rows, y).hash
    ensures Runs(h, false, Fresh(rows, n), Race(x, y, Last(rows)))
    ensures After(h, false, Fresh(rows, n), Race(x, y, Last(rows))).rows == RacedRows(h, rows, x, y)
    ensures forall other :: !Intact(h, RacedRows(h, rows, x, y), other)
  {
    RacedRowsAreForked(h, rows, x, y);
    var c0, tail := Fresh(rows, n), Last(rows);
    var s := Race(x, y, tail);
    var c1 := Next(h, false, c0, s[0]);
    var c2 := Next(h, false, c1, s[1]);
    var c3 := Next(h, false, c2, s[2]);
    var c4 := Next(h, false, c3, s[3]);
    assert s[4..] == [ReadTail(0, tail), ReadTail(1, tail), Insert(0, [], 0), Insert(1, [], 0)];
    RaceEnds(h, c4, rows, x, y, s[4..], anchor);
    var end := After(h, false, c4, s[4..]);
    UnfoldRun(h, c3, s[3..], end);
    UnfoldRun(h, c2, s[2..], end);
    UnfoldRun(h, c1, s[1..], end);
    UnfoldRun(h, c0, s, end);
  }

  /** The next entry is not refused where the seq index does not bind. */
  lemma {:induction false} RacedIsFresh(h: Hasher, rows: seq<Entry>, anchor: Option<Anchor>, draft: Draft)
    requires SeqBinding(h) && Intact(h, rows, anchor)
    ensures !Refused(rows, false, NextSeq(rows), Raced(h, rows, draft).hash)
  {
    IntactIsContiguous(h, rows, anchor);
    var e := Raced(h, rows, draft);
    FreeSeqMeansFreshHash(h, rows, anchor, Inserting(draft, 1, 0, e.seqNo, e.previousHash, e.hash));
  }

  lemma {:induction false} LastIsTail(h: Hasher, rows: seq<Entry>, anchor: Option<Anchor>)
    requires Intact(h, rows, anchor)
    ensures IsTail(rows, Last(rows))
  {
    IntactIsContiguous(h, rows, anchor);
  }

  lemma {:induction false} RaceEnds(
      h: Hasher, c: Config, rows: seq<Entry>, x: Draft, y: Draft, s: seq<Step>, anchor: Option<Anchor>)
    requires SeqBinding(h) && Intact(h, rows, anchor) && c.rows == rows
    requires Raced(h, rows, x).hash != Raced(h, rows, y).hash
    requires s == [ReadTail(0, Last(rows)), ReadTail(1, Last(rows)), Insert(0, [], 0), Insert(1, [], 0)]
    requires |c.processes| == |c.submitted| >= 2
    requires c.processes[0].active.Reading? && c.processes[0].active.draft == x
    requires c.processes[1].active.Reading? && c.processes[1].active.draft == y
    ensures Runs(h, false, c, s)
    ensures After(h, false, c, s).rows == RacedRows(h, rows, x, y)
  {
    LastIsTail(h, rows, anchor);
    RacedIsFresh(h, rows, anchor, x);
    RacedIsFresh(h, rows, anchor, y);
    var c1 := Next(h, false, c, s[0]);
    var c2 := Next(h, false, c1, s[1]);
    var c3 := Next(h, false, c2, s[2]);
    assert c3.rows == rows + [Raced(h, rows, x)];
    assert !Refused(c3.rows, false, NextSeq(rows), Raced(h, rows, y).hash);
    var c4 := Next(h, false, c3, s[3]);
    assert c4.rows == c3.rows + [Raced(h, rows, y)];
    UnfoldRun(h, c3, s[3..], c4);
    UnfoldRun(h, c2, s[2..], c4);
    UnfoldRun(h, c1, s[1..], c4);
    UnfoldRun(h, c, s, c4);
  }

  /** A fork at the end of a full page: from an intact chain of 499 entries the race stores
      the 500th seq twice, and verification, which never reads the second, says valid. */
  lemma {:induction false} ForkIsReachedAndVerifies(h: Hasher, rows: seq<Entry>, n: nat, x: Draft, y: Draft, anchor: Option<Anchor>)
    requires SeqBinding(h) && Intact(h, rows, anchor) && n >= 2
    requires Raced(h, rows, x).hash != Raced(h, rows, y).hash
    requires |rows| == 499 && rows[0].seqNo == 1
    ensures Runs(h, false, Fresh(rows, n), Race(x, y, Last(rows)))
    ensures var stored := After(h, false, Fresh(rows, n), Race(x, y, Last(rows))).rows;
      Ordered(stored) && Intact(h, Iterated(stored, 0, None, EXPORT_BATCH), anchor) && !Intact(h, stored, anchor)
  {
    GlobalChainForks(h, rows, n, x, y, anchor);
    RacedRowsVerify(h, rows, x, y, anchor);
  }

  lemma {:induction false} RacedRowsVerify(h: Hasher, rows: seq<Entry>, x: Draft, y: Draft, anchor: Option<Anchor>)
    requires Intact(h, rows, anchor) && |rows| == 499 && rows[0].seqNo == 1
    ensures var stored := RacedRows(h, rows, x, y);
      Ordered(stored) && Intact(h, Iterated(stored, 0, None, EXPORT_BATCH), anchor)
  {
    var full := rows + [Raced(h, rows, x)];
    NextKeepsIntact(h, rows, anchor, Raced(h, rows, x));
    assert full[0] == rows[0] && full[499] == Raced(h, rows, x);
    ForkCanVerify(h, full, Raced(h, rows, y), anchor);
  }

  /** So every run from an intact chain keeps it intact exactly when the seq index binds or
      there is at most one process. */
  lemma {:induction false} SafeExactlyWhenGuardedOrAlone(
      h: Hasher, guarded: bool, rows: seq<Entry>, n: nat, x: Draft, y: Draft, anchor: Option<Anchor>)
    requires SeqBinding(h) && Intact(h, rows, anchor) && Raced(h, rows, x).hash != Raced(h, rows, y).hash
    ensures (forall steps :: Runs(h, guarded, Fresh(rows, n), steps) ==>
               Intact(h, After(h, guarded, Fresh(rows, n), steps).rows, anchor))
        <==> guarded || n <= 1
  {
    if guarded || n <= 1 {
      forall steps | Runs(h, guarded, Fresh(rows, n), steps)
        ensures Intact(h, After(h, guarded, Fresh(rows, n), steps).rows, anchor)
      {
        EveryInterleavingIsSafe(h, guarded, anchor, rows, Fresh(rows, n), steps);
      }
    } else {
      GlobalChainForks(h, rows, n, x, y, anchor);
    }
  }

  lemma {:induction false} UnfoldRun(h: Hasher, c: Config, steps: seq<Step>, end: Config)
    requires steps != [] && Enabled(c, steps[0])
    requires steps[1..] == [] ==> Next(h, false, c, steps[0]) == end
    requires steps[1..] != [] ==>
      Runs(h, false, Next(h, false, c, steps[0]), steps[1..])
      && After(h, false, Next(h, false, c, steps[0]), steps[1..]) == end
    ensures Runs(h, false, c, steps) && After(h, false, c, steps) == end
  {
  }

  // ---- the retry loop, with the chain's lock held and no other process ----

  class IngestProcessor {
    const repo: Repository

    constructor (repo: Repository)
      ensures this.repo == repo
    {
      this.repo := repo;
    }

    /** The draft is stored behind the tail of its chain, whatever the chain holds, unless
        its hash is already in the table: then every attempt conflicts and nothing changes. */
    method AppendWithRetry(h: Hasher, id: Text, draft: Draft, now: int) returns (r: Result<Entry, SeqConflict>)
      requires repo.Valid()
      modifies repo
      ensures repo.Valid()
      ensures var c := ChainId(draft.scope, draft.guildId);
        var e := NextEntry(h, old(repo.Rows(c)), id, draft, now);
        if old(repo.HashTaken(e.hash)) then
          r == Err(SeqConflict(c, e.seqNo)) && repo.entries == old(repo.entries)
        else
          && r == Ok(e)
          && repo.entries == old(repo.entries)[c := old(repo.Rows(c)) + [e]]
          && (old(UniqueSeqs(repo.Rows(c))) ==> UniqueSeqs(repo.Rows(c)))
      ensures repo.archived == old(repo.archived)
    {
      var c := ChainId(draft.scope, draft.guildId);
      ghost var rows := repo.Rows(c);
      ghost var e := NextEntry(h, rows, id, draft, now);
      var lastError := SeqConflict(c, 0);
      var attempt := 1;
      while attempt <= MAX_APPEND_ATTEMPTS
        invariant 1 <= attempt <= MAX_APPEND_ATTEMPTS + 1
        invariant repo.Valid() && repo.entries == old(repo.entries) && repo.archived == old(repo.archived)
        invariant attempt > 1 ==> repo.HashTaken(e.hash) && lastError == SeqConflict(c, e.seqNo)
      {
        var last := repo.FindLast(c);
        var seqNo := (if last.Some? then last.value.seqNo else 0) + 1;
        var previousHash := if last.Some? then Some(last.value.hash) else None;
        var hash := h(draft, seqNo, previousHash);
        assert e == Entry(id, draft, seqNo, previousHash, hash, now);
        InsertRowLast(rows, e);
        var stored := repo.Append(id, draft, seqNo, previousHash, hash, now);
        if stored.Ok? {
          return stored;
        }
        lastError := stored.error;
        attempt := attempt + 1;
      }
      r := Err(lastError);
    }
  }
}
