/**
 Appending and retention as whole operations on the audit tables: every chain keeps
 verifying through any history of appends and archiving sweeps.
 */
module AuditRetention {
  import opened Prelude
  import opened Utf16
  import opened AuditHash
  import opened AuditChain
  import opened AuditRepository

  // The service archives the prefix of a chain that is past retention and then prunes it;
  // a sweep may stop between the two, and an unarchived one may break the chain.

  const DAY_MS := 24 * 60 * 60 * 1000

  datatype RetentionConfig = RetentionConfig(retentionDays: int, archiveBeforeDelete: bool)

  /** Where a sweep stops by an exception of a store or database call, if it does. */
  datatype Stop = Never | BeforeArchiveRow | BeforePrune

  /** The configuration of each chain's guild, and where each chain's sweep stops. */
  type ConfigOf = ChainId -> RetentionConfig
  type StopOf = ChainId -> Stop

  datatype SweepError = BoundaryVanished | CallFailed

  /** The seqs a sweep removes: from the first up to the bound. */
  datatype PruneRange = PruneRange(firstSeq: int, bound: int)

  datatype Chain = Chain(rows: seq<Entry>, archives: seq<Archive>)

  function ComputeCutoff(now: int, retentionDays: int): int {
    now - retentionDays * DAY_MS
  }

  // ---- the two operations on one chain, as functions ----

  function AppendStep(h: Hasher, chain: Chain, id: Text, draft: Draft, now: int): Chain {
    chain.(rows := chain.rows + [NextEntry(h, chain.rows, id, draft, now)])
  }

  /** The archive a sweep writes for the first `n` entries. */
  function ArchiveOf(rows: seq<Entry>, n: nat): Archive
    requires 0 < n <= |rows|
  {
    var last := rows[n - 1].seqNo;
    assert rows[n - 1] in rows;
    Archive(rows[0].seqNo, last, last - rows[0].seqNo + 1, BySeq(rows, last).value.hash)
  }

  /** How many rows at the front have a seq below the given one. */
  function NumBelow(rows: seq<Entry>, seqNo: int): (n: nat)
    ensures n <= |rows|
    ensures forall i :: 0 <= i < n ==> rows[i].seqNo < seqNo
    ensures n < |rows| ==> rows[n].seqNo >= seqNo
  {
    if rows == [] || rows[0].seqNo >= seqNo then 0 else 1 + NumBelow(rows[1..], seqNo)
  }

  /** How many rows a sweep removes: those below the first seq with an entry that is not
      older than the cutoff. */
  function Prunable(rows: seq<Entry>, cutoff: int): (n: nat)
    ensures n <= |rows|
  {
    var past := OldPrefix(rows, cutoff);
    if past == |rows| then past else NumBelow(rows, rows[past].seqNo)
  }

  /** The seq below the first entry kept is not that of the last entry removed. */
  predicate BoundaryMissing(rows: seq<Entry>, n: nat)
    requires n <= |rows|
  {
    0 < n < |rows| && rows[n - 1].seqNo != rows[n].seqNo - 1
  }

  /** The exception a sweep that would remove `n` entries ends with, if any. */
  function SweepOutcome(rows: seq<Entry>, n: nat, archiveFirst: bool, stop: Stop): Option<SweepError>
    requires n <= |rows|
  {
    if n == 0 then None
    else if archiveFirst && BoundaryMissing(rows, n) then Some(BoundaryVanished)
    else if (archiveFirst && stop == BeforeArchiveRow) || stop == BeforePrune then Some(CallFailed)
    else None
  }

  /** The chain after a sweep that would remove `n` entries. */
  function SweepBy(chain: Chain, n: nat, archiveFirst: bool, stop: Stop): Chain
    requires n <= |chain.rows|
  {
    if n == 0 || (archiveFirst && (BoundaryMissing(chain.rows, n) || stop == BeforeArchiveRow)) then chain
    else
      var archived :=
        if archiveFirst then chain.archives + [ArchiveOf(chain.rows, n)] else chain.archives;
      if stop == BeforePrune then chain.(archives := archived)
      else Chain(chain.rows[n..], archived)
  }

  function SweepStep(chain: Chain, cutoff: int, archiveFirst: bool, stop: Stop): Chain {
    SweepBy(chain, Prunable(chain.rows, cutoff), archiveFirst, stop)
  }

  // ---- what a sweep removes ----

  /** A row goes exactly when every entry up to its seq is older than the cutoff. */
  lemma {:induction false} PrunableMeans(rows: seq<Entry>, cutoff: int, i: nat)
    requires Ordered(rows) && i < |rows|
    ensures i < Prunable(rows, cutoff)
       <==> forall j :: 0 <= j < |rows| && rows[j].seqNo <= rows[i].seqNo ==> rows[j].draft.occurredAt < cutoff
  {
    var past, n := OldPrefix(rows, cutoff), Prunable(rows, cutoff);
    if past < |rows| {
      assert rows[past].draft.occurredAt >= cutoff;
      if i < n {
        forall j | 0 <= j < |rows| && rows[j].seqNo <= rows[i].seqNo ensures rows[j].draft.occurredAt < cutoff {
          assert j < past;
        }
      } else {
        assert rows[past].seqNo <= rows[n].seqNo <= rows[i].seqNo;
      }
    }
  }

  /** With distinct seqs that is the prefix of entries older than the cutoff. */
  lemma {:induction false} PrunableIsOldPrefix(rows: seq<Entry>, cutoff: int)
    requires UniqueSeqs(rows)
    ensures Prunable(rows, cutoff) == OldPrefix(rows, cutoff)
  {
  }

  /** Exactly the rows were removed from the front up to whose seq every entry is older than
      so many days, of 86400000 milliseconds each. */
  ghost predicate PrunedByAge(before: seq<Entry>, after: seq<Entry>, now: int, days: int) {
    |after| <= |before| &&
    var n := |before| - |after|;
    && after == before[n..]
    && forall i :: 0 <= i < |before| ==>
         (i < n <==> forall j :: 0 <= j < |before| && before[j].seqNo <= before[i].seqNo ==>
                       before[j].draft.occurredAt < now - days * 86400000)
  }

  /** Whatever was removed was older than that. */
  ghost predicate OnlyOldRemoved(before: seq<Entry>, after: seq<Entry>, now: int, days: int) {
    |after| <= |before| &&
    var n := |before| - |after|;
    after == before[n..] && forall i :: 0 <= i < n ==> before[i].draft.occurredAt < now - days * 86400000
  }

  /** What an exception of a call, or a gap at the boundary of an archived prefix, stops. */
  predicate Stopped(rows: seq<Entry>, n: nat, archiveFirst: bool, stop: Stop)
    requires n <= |rows|
  {
    n > 0 &&
    (stop == BeforePrune
     || (archiveFirst && (stop == BeforeArchiveRow || (n < |rows| && rows[n].seqNo != rows[n - 1].seqNo + 1))))
  }

  lemma {:induction false} PrunableByAge(rows: seq<Entry>, now: int, days: int)
    requires Ordered(rows)
    ensures PrunedByAge(rows, rows[Prunable(rows, ComputeCutoff(now, days))..], now, days)
  {
    var cutoff := ComputeCutoff(now, days);
    assert cutoff == now - days * 86400000;
    forall i | 0 <= i < |rows|
      ensures i < Prunable(rows, cutoff)
         <==> forall j :: 0 <= j < |rows| && rows[j].seqNo <= rows[i].seqNo ==> rows[j].draft.occurredAt < cutoff
    {
      PrunableMeans(rows, cutoff, i);
    }
  }

  /** A sweep that is not stopped takes those rows, and one that is takes none. */
  lemma {:induction false} SweepTakes(chain: Chain, cutoff: int, archiveFirst: bool, stop: Stop)
    ensures var n := Prunable(chain.rows, cutoff);
      && SweepStep(chain, cutoff, archiveFirst, stop).rows
         == (if Stopped(chain.rows, n, archiveFirst, stop) then chain.rows else chain.rows[n..])
      && (Stopped(chain.rows, n, archiveFirst, stop) <==> SweepOutcome(chain.rows, n, archiveFirst, stop).Some?)
  {
    assert chain.rows[0..] == chain.rows;
  }

  lemma {:induction false} SweepPrunesByAge(chain: Chain, now: int, days: int, archiveFirst: bool, stop: Stop)
    requires Ordered(chain.rows)
    ensures var n := Prunable(chain.rows, ComputeCutoff(now, days));
      var after := SweepStep(chain, ComputeCutoff(now, days), archiveFirst, stop).rows;
      if SweepOutcome(chain.rows, n, archiveFirst, stop).Some? then after == chain.rows
      else |after| == |chain.rows| - n && PrunedByAge(chain.rows, after, now, days)
  {
    SweepTakes(chain, ComputeCutoff(now, days), archiveFirst, stop);
    PrunableByAge(chain.rows, now, days);
  }

  /** No sweep, completed or stopped, removes an entry younger than the retention. */
  lemma {:induction false} SweepKeepsYoung(chain: Chain, now: int, days: int, archiveFirst: bool, stop: Stop)
    requires Ordered(chain.rows)
    ensures OnlyOldRemoved(chain.rows, SweepStep(chain, ComputeCutoff(now, days), archiveFirst, stop).rows, now, days)
  {
    SweepPrunesByAge(chain, now, days, archiveFirst, stop);
    var rows, after := chain.rows, SweepStep(chain, ComputeCutoff(now, days), archiveFirst, stop).rows;
    assert after == rows ==> rows[0..] == rows;
    forall i | 0 <= i < |rows| - |after| ensures rows[i].draft.occurredAt < now - days * 86400000 {
      assert PrunedByAge(rows, after, now, days);
    }
  }

  lemma {:induction false} BySeqOfUnique(rows: seq<Entry>, k: nat)
    requires UniqueSeqs(rows) && k < |rows|
    ensures BySeq(rows, rows[k].seqNo) == Some(rows[k])
  {
    assert rows[k] in rows;
  }

  // ---- what every chain keeps ----

  /** Verification of the chain, with the anchor the service looks up, succeeds. */
  ghost predicate Verifies(h: Hasher, chain: Chain) {
    Intact(h, chain.rows, AnchorFor(chain.rows, chain.archives))
  }

  lemma {:induction false} VerifyingSeqsArePositive(h: Hasher, chain: Chain)
    requires Verifies(h, chain)
    ensures forall i :: 0 <= i < |chain.rows| ==> chain.rows[i].seqNo >= 1
  {
    IntactIsContiguous(h, chain.rows, AnchorFor(chain.rows, chain.archives));
  }

  lemma {:induction false} AppendKeepsVerifying(h: Hasher, chain: Chain, id: Text, draft: Draft, now: int)
    requires Verifies(h, chain)
    ensures Verifies(h, AppendStep(h, chain, id, draft, now))
  {
    var rows, e := chain.rows, NextEntry(h, chain.rows, id, draft, now);
    NextKeepsIntact(h, rows, AnchorFor(rows, chain.archives), e);
    assert rows != [] ==> (rows + [e])[0] == rows[0];
  }

  /** A suffix of an intact chain is intact from an anchor for its predecessor's hash. */
  lemma {:induction false} SuffixIntact(h: Hasher, rows: seq<Entry>, n: nat, before: Option<Anchor>, anchor: Option<Anchor>)
    requires Intact(h, rows, before) && 0 < n <= |rows|
    requires forall e <- rows :: e.seqNo >= 1
    ensures Intact(h, rows[n..], anchor) <==>
      n == |rows| || anchor == Some(Anchor(rows[n - 1].seqNo, rows[n - 1].hash))
  {
    var left := rows[n..];
    forall i | 0 < i < |left| ensures LinkedAt(left, i) {
      assert LinkedAt(rows, n + i);
    }
    forall i | 0 <= i < |left| ensures Rehashes(h, left[i]) {
      assert Rehashes(h, rows[n + i]);
    }
    if n < |rows| {
      assert LinkedAt(rows, n);
      assert rows[n - 1] in rows;
      assert left[0] == rows[n] && rows[n].seqNo > 1;
    }
  }

  lemma {:induction false} NewestAnchorAfter(archives: seq<Archive>, a: Archive, toSeq: int)
    ensures NewestAnchor(archives + [a], toSeq) ==
      if a.toSeq == toSeq then Some(Anchor(toSeq, a.rootHash)) else NewestAnchor(archives, toSeq)
  {
    assert (archives + [a])[..|archives|] == archives;
  }

  /** The archive of the first entries of a verifying chain names the first and the last of
      them, their number and the hash of the last, and does not change the anchor of the rows it covers. */
  lemma {:induction false} ArchiveAnchors(h: Hasher, chain: Chain, n: nat)
    requires Verifies(h, chain) && 0 < n <= |chain.rows|
    ensures var rows, archived := chain.rows, chain.archives + [ArchiveOf(chain.rows, n)];
      && AnchorFor(rows, archived) == AnchorFor(rows, chain.archives)
      && NewestAnchor(archived, rows[n - 1].seqNo) == Some(Anchor(rows[n - 1].seqNo, rows[n - 1].hash))
      && (n < |rows| ==> rows[n].seqNo == rows[n - 1].seqNo + 1 > 1)
    ensures ArchiveOf(chain.rows, n)
         == Archive(chain.rows[0].seqNo, chain.rows[n - 1].seqNo, n, chain.rows[n - 1].hash)
  {
    var rows, a := chain.rows, ArchiveOf(chain.rows, n);
    VerifyingSeqsArePositive(h, chain);
    IntactIsContiguous(h, rows, AnchorFor(rows, chain.archives));
    BySeqOfUnique(rows, n - 1);
    NewestAnchorAfter(chain.archives, a, rows[0].seqNo - 1);
    NewestAnchorAfter(chain.archives, a, rows[n - 1].seqNo);
  }

  lemma {:induction false} PrunedSuffixVerifies(h: Hasher, chain: Chain, n: nat)
    requires Verifies(h, chain) && 0 < n <= |chain.rows|
    ensures Verifies(h, Chain(chain.rows[n..], chain.archives + [ArchiveOf(chain.rows, n)]))
  {
    var rows, archived := chain.rows, chain.archives + [ArchiveOf(chain.rows, n)];
    ArchiveAnchors(h, chain, n);
    VerifyingSeqsArePositive(h, chain);
    SuffixIntact(h, rows, n, AnchorFor(rows, chain.archives), AnchorFor(rows[n..], archived));
  }

  /** An archiving sweep, completed or stopped anywhere, leaves a chain that verifies. */
  lemma {:induction false} ArchivingSweepKeepsVerifying(h: Hasher, chain: Chain, cutoff: int, stop: Stop)
    requires Verifies(h, chain)
    ensures Verifies(h, SweepStep(chain, cutoff, true, stop))
  {
    var n := Prunable(chain.rows, cutoff);
    if n > 0 && stop == Never {
      PrunedSuffixVerifies(h, chain, n);
    } else if n > 0 {
      ArchiveAnchors(h, chain, n);
    }
  }

  /** Without archiving, a completed sweep keeps the chain verifying exactly when it
      removes nothing, or everything, or an older archive happens to carry the hash of
      the last removed entry under its seq. */
  lemma {:induction false} UnarchivedSweepVerifies(h: Hasher, chain: Chain, cutoff: int)
    requires Verifies(h, chain)
    ensures Verifies(h, SweepStep(chain, cutoff, false, Never)) <==>
      var n := OldPrefix(chain.rows, cutoff);
      n == 0 || n == |chain.rows|
      || NewestAnchor(chain.archives, chain.rows[n - 1].seqNo)
         == Some(Anchor(chain.rows[n - 1].seqNo, chain.rows[n - 1].hash))
  {
    var rows, n := chain.rows, OldPrefix(chain.rows, cutoff);
    IntactIsContiguous(h, rows, AnchorFor(rows, chain.archives));
    PrunableIsOldPrefix(rows, cutoff);
    if n > 0 {
      VerifyingSeqsArePositive(h, chain);
      SuffixIntact(h, rows, n, AnchorFor(rows, chain.archives), AnchorFor(rows[n..], chain.archives));
    }
  }

  // ---- whole histories ----

  datatype Operation =
    | Append(id: Text, draft: Draft, at: int)
    | Sweep(cutoff: int, stop: Stop)

  function Perform(h: Hasher, chain: Chain, op: Operation): Chain {
    match op
    case Append(id, draft, at) => AppendStep(h, chain, id, draft, at)
    case Sweep(cutoff, stop) => SweepStep(chain, cutoff, true, stop)
  }

  function History(h: Hasher, ops: seq<Operation>): Chain {
    if ops == [] then Chain([], [])
    else Perform(h, History(h, ops[..|ops| - 1]), ops[|ops| - 1])
  }

  /** After any history of appends and archiving sweeps, from an empty chain, the chain
      verifies against its newest anchor and is numbered without gaps. */
  lemma {:induction false} EveryHistoryVerifies(h: Hasher, ops: seq<Operation>)
    ensures Verifies(h, History(h, ops))
    ensures var rows := History(h, ops).rows;
      forall i :: 0 <= i < |rows| ==> rows[i].seqNo == rows[0].seqNo + i && rows[i].seqNo >= 1
  {
    if ops != [] {
      EveryHistoryVerifies(h, ops[..|ops| - 1]);
      var chain := History(h, ops[..|ops| - 1]);
      match ops[|ops| - 1]
      case Append(id, draft, at) => AppendKeepsVerifying(h, chain, id, draft, at);
      case Sweep(cutoff, stop) => ArchivingSweepKeepsVerifying(h, chain, cutoff, stop);
    }
    var chain := History(h, ops);
    IntactIsContiguous(h, chain.rows, AnchorFor(chain.rows, chain.archives));
    VerifyingSeqsArePositive(h, chain);
  }

  /** So after any history `VerifyChain`, which is about the rows that paging reads, finds
      the chain valid, whatever the page size, and has read all of it. */
  lemma {:induction false} EveryHistoryIsFoundValid(h: Hasher, ops: seq<Operation>, batch: nat)
    requires batch >= 1
    ensures var chain := History(h, ops);
      var read := Iterated(chain.rows, 0, None, batch);
      read == chain.rows && Intact(h, read, AnchorFor(chain.rows, chain.archives))
  {
    var chain := History(h, ops);
    EveryHistoryVerifies(h, ops);
    IntactIsContiguous(h, chain.rows, AnchorFor(chain.rows, chain.archives));
    IteratedIsComplete(chain.rows, 0, None, batch);
    RowsWithinAll(chain.rows, 0);
  }

  /** `VerifyChain` on tables that hold the chain of a history. */
  method VerifyHistory(h: Hasher, ghost ops: seq<Operation>, repo: Repository, c: ChainId, batch: nat)
    returns (r: VerificationResult)
    requires repo.Valid() && batch >= 1
    requires Chain(repo.Rows(c), repo.Archives(c)) == History(h, ops)
    ensures r == VerificationResult(|repo.Rows(c)|, true, None)
  {
    EveryHistoryIsFoundValid(h, ops, batch);
    r := repo.VerifyChain(h, c, batch);
  }

  /** A chain pruned to nothing starts again at seq 1 with no previous hash. */
  lemma {:induction false} FullPruneRestarts(h: Hasher, chain: Chain, cutoff: int, id: Text, draft: Draft, at: int)
    requires forall i :: 0 <= i < |chain.rows| ==> chain.rows[i].draft.occurredAt < cutoff
    ensures var swept := SweepStep(chain, cutoff, true, Never);
      var restarted := AppendStep(h, swept, id, draft, at);
      swept.rows == [] && restarted.rows == [Entry(id, draft, 1, None, h(draft, 1, None), at)]
      && Verifies(h, restarted)
  {
    OldPrefixUnique(chain.rows, cutoff, |chain.rows|);
    assert chain.rows[|chain.rows|..] == [];
    assert Verifies(h, Chain([], SweepStep(chain, cutoff, true, Never).archives));
    AppendKeepsVerifying(h, SweepStep(chain, cutoff, true, Never), id, draft, at);
  }

  // ---- the service ----

  /** The rows above the n-th when the next one has a greater seq. */
  lemma {:induction false} RowsAboveSuffix(rows: seq<Entry>, n: nat, bound: int)
    requires Ordered(rows) && 0 < n <= |rows|
    requires rows[n - 1].seqNo <= bound && (n < |rows| ==> bound < rows[n].seqNo)
    ensures RowsWithin(rows, bound, None) == rows[n..]
  {
    if n == 1 {
      assert forall i :: 0 <= i < |rows[1..]| ==> rows[1..][i] == rows[i + 1];
      RowsWithinAll(rows[1..], bound);
    } else {
      RowsAboveSuffix(rows[1..], n - 1, bound);
      assert rows[1..][n - 1..] == rows[n..];
    }
  }

  lemma {:induction false} OldPrefixUnique(rows: seq<Entry>, cutoff: int, n: nat)
    requires n <= |rows| && forall i :: 0 <= i < n ==> rows[i].draft.occurredAt < cutoff
    requires n < |rows| ==> rows[n].draft.occurredAt >= cutoff
    ensures OldPrefix(rows, cutoff) == n
  {
    if n > 0 {
      OldPrefixUnique(rows[1..], cutoff, n - 1);
    }
  }

  /** Pruning up to `bound` removes exactly the first `n` of the rows. */
  ghost predicate PrunesTo(rows: seq<Entry>, firstSeq: int, bound: int, n: nat) {
    && Ordered(rows) && 0 < n <= |rows|
    && (n < |rows| ==> rows[n - 1].seqNo < rows[n].seqNo)
    && rows[0].seqNo == firstSeq
    && bound == (if n < |rows| then rows[n].seqNo - 1 else rows[n - 1].seqNo)
  }

  /** The row looked up at the bound is missing as `BoundaryMissing` says; if not, it is the
      one whose hash the archive takes. */
  lemma {:induction false} BoundaryLookup(rows: seq<Entry>, firstSeq: int, bound: int, n: nat)
    requires PrunesTo(rows, firstSeq, bound, n)
    ensures BySeq(rows, bound).None? <==> BoundaryMissing(rows, n)
    ensures BySeq(rows, bound).Some? ==>
      ArchiveOf(rows, n) == Archive(firstSeq, bound, bound - firstSeq + 1, BySeq(rows, bound).value.hash)
  {
    assert rows[n - 1] in rows;
  }

  class RetentionService {
    const repo: Repository

    constructor (repo: Repository)
      ensures this.repo == repo
    {
      this.repo := repo;
    }

    function ChainOf(c: ChainId): Chain
      reads repo
    {
      ChainIn(repo.entries, repo.archived, c)
    }

    /** The archive row for the first `n` entries, unless a call fails before it. */
    method ArchivePrefix(c: ChainId, firstSeq: int, bound: int, stop: Stop, ghost n: nat)
      returns (error: Option<SweepError>)
      requires PrunesTo(repo.Rows(c), firstSeq, bound, n)
      modifies repo`archived
      ensures error ==
        if BoundaryMissing(repo.Rows(c), n) then Some(BoundaryVanished)
        else if stop == BeforeArchiveRow then Some(CallFailed) else None
      ensures repo.archived == if error.Some? then old(repo.archived)
        else old(repo.archived)[c := old(repo.Archives(c)) + [ArchiveOf(repo.Rows(c), n)]]
    {
      BoundaryLookup(repo.Rows(c), firstSeq, bound, n);
      var boundary := repo.FindBySeq(c, bound);
      if boundary.None? {
        return Some(BoundaryVanished);
      }
      if stop == BeforeArchiveRow {
        return Some(CallFailed);
      }
      repo.CreateArchive(c, Archive(firstSeq, bound, bound - firstSeq + 1, boundary.value.hash));
      error := None;
    }

    /** Archives the first `n` entries when asked to, then prunes them. */
    method RemovePrefix(c: ChainId, firstSeq: int, bound: int, archiveFirst: bool, stop: Stop, ghost n: nat)
      returns (r: Result<nat, SweepError>)
      requires repo.Valid() && PrunesTo(repo.Rows(c), firstSeq, bound, n)
      modifies repo
      ensures repo.Valid()
      ensures var error := SweepOutcome(old(repo.Rows(c)), n, archiveFirst, stop);
        r == if error.None? then Ok(n) else Err(error.value)
      ensures SweptBy(c, n, archiveFirst, stop, old(repo.entries), old(repo.archived), repo.entries, repo.archived)
    {
      ghost var rows := repo.Rows(c);
      if archiveFirst {
        var error := ArchivePrefix(c, firstSeq, bound, stop, n);
        if error.Some? {
          return Err(error.value);
        }
      }
      if stop == BeforePrune {
        return Err(CallFailed);
      }
      RowsAboveSuffix(rows, n, bound);
      var pruned := repo.PruneUpTo(c, bound);
      r := Ok(pruned);
    }

    /** The first seq and the prune bound, or `None` when there is nothing to prune. */
    method PruneBound(c: ChainId, cutoff: int) returns (r: Option<PruneRange>)
      requires repo.Valid()
      ensures r.None? <==> Prunable(repo.Rows(c), cutoff) == 0
      ensures r.Some? ==> PrunesTo(repo.Rows(c), r.value.firstSeq, r.value.bound, Prunable(repo.Rows(c), cutoff))
    {
      var firstSeq := repo.FirstSeq(c);
      if firstSeq.None? {
        return None;
      }
      var firstRetained := repo.FirstSeqAtOrAfter(c, cutoff);
      var last := repo.FindLast(c);
      var bound := if firstRetained.Some? then firstRetained.value - 1 else last.value.seqNo;
      r := if bound < firstSeq.value then None else Some(PruneRange(firstSeq.value, bound));
    }

    /** One sweep of a chain: it changes that chain, and no other, as `SweepStep` says, and
        reports how many rows are prunable, or the exception it ended with. If it completes,
        exactly the rows went that are past retention with all up to their seq. */
    method SweepChain(c: ChainId, now: int, cfg: RetentionConfig, stop: Stop)
      returns (r: Result<nat, SweepError>)
      requires repo.Valid()
      modifies repo
      ensures repo.Valid()
      ensures ChainOf(c) == SweepStep(old(ChainOf(c)), ComputeCutoff(now, cfg.retentionDays), cfg.archiveBeforeDelete, stop)
      ensures forall d :: d != c ==> ChainOf(d) == old(ChainOf(d))
      ensures var n := Prunable(old(repo.Rows(c)), ComputeCutoff(now, cfg.retentionDays));
        var error := SweepOutcome(old(repo.Rows(c)), n, cfg.archiveBeforeDelete, stop);
        r == if error.None? then Ok(n) else Err(error.value)
      ensures r.Ok? ==>
        && r.value == |old(repo.Rows(c))| - |repo.Rows(c)|
        && PrunedByAge(old(repo.Rows(c)), repo.Rows(c), now, cfg.retentionDays)
      ensures r.Err? ==> repo.Rows(c) == old(repo.Rows(c))
    {
      SweepPrunesByAge(ChainOf(c), now, cfg.retentionDays, cfg.archiveBeforeDelete, stop);
      var cutoff := ComputeCutoff(now, cfg.retentionDays);
      ghost var e0, a0, n := repo.entries, repo.archived, Prunable(repo.Rows(c), cutoff);
      var range := PruneBound(c, cutoff);
      if range.None? {
        return Ok(0);
      }
      r := RemovePrefix(
        c, range.value.firstSeq, range.value.bound, cfg.archiveBeforeDelete, stop, Prunable(repo.Rows(c), cutoff));
      SweptByIsStep(c, n, cfg.archiveBeforeDelete, stop, e0, a0, repo.entries, repo.archived);
    }

    /** One chain of a run: a failure is caught and counts as nothing pruned. The ghost
        arguments are the chains swept so far and the tables when the run began. */
    method SweepHead(c: ChainId, now: int, cfgOf: ConfigOf, stopOf: StopOf,
        ghost swept: seq<ChainId>, ghost e0: map<ChainId, seq<Entry>>, ghost a0: map<ChainId, seq<Archive>>)
      returns (pruned: nat)
      requires repo.Valid() && c !in swept
      requires SweptExactly(swept, e0, a0, repo.entries, repo.archived, now, cfgOf, stopOf)
      modifies repo
      ensures repo.Valid()
      ensures SweptExactly(swept + [c], e0, a0, repo.entries, repo.archived, now, cfgOf, stopOf)
      ensures var was := Lost(swept, e0, old(repo.entries));
        Lost(swept + [c], e0, repo.entries) == (was.0 + (if pruned > 0 then 1 else 0), was.1 + pruned)
    {
      ghost var e1, a1 := repo.entries, repo.archived;
      UnsweptUnchanged(swept, c, e0, a0, e1, a1, now, cfgOf, stopOf);
      var r := SweepChain(c, now, cfgOf(c), stopOf(c));
      pruned := if r.Ok? then r.value else 0;
      forall d | d != c ensures ChainIn(repo.entries, repo.archived, d) == ChainIn(e1, a1, d) {
        assert ChainOf(d) == old(ChainOf(d));
      }
      SweptOneMore(swept, c, e0, a0, e1, a1, repo.entries, repo.archived, now, cfgOf, stopOf);
      LostOneMoreSwept(swept, c, e0, e1, a1, repo.entries, repo.archived, now, cfgOf, stopOf);
    }

    /** The loop over the chains that had rows. */
    method SweepHeads(heads: seq<ChainId>, now: int, cfgOf: ConfigOf, stopOf: StopOf)
      returns (chainsPruned: nat, entriesPruned: nat)
      requires repo.Valid() && Distinct(heads)
      modifies repo
      ensures repo.Valid()
      ensures SweptExactly(heads, old(repo.entries), old(repo.archived), repo.entries, repo.archived, now, cfgOf, stopOf)
      ensures (chainsPruned, entriesPruned) == Lost(heads, old(repo.entries), repo.entries)
    {
      ghost var e0, a0, swept: seq<ChainId>, lost: (int, int) := repo.entries, repo.archived, [], (0, 0);
      chainsPruned, entriesPruned := 0, 0;
      for k := 0 to |heads|
        invariant repo.Valid() && swept == heads[..k]
        invariant SweptExactly(swept, e0, a0, repo.entries, repo.archived, now, cfgOf, stopOf)
        invariant lost == Lost(swept, e0, repo.entries) && chainsPruned == lost.0 && entriesPruned == lost.1
      {
        NextIsNew(heads, k);
        var pruned := SweepHead(heads[k], now, cfgOf, stopOf, swept, e0, a0);
        swept := swept + [heads[k]];
        lost := (lost.0 + (if pruned > 0 then 1 else 0), lost.1 + pruned);
        if pruned > 0 {
          chainsPruned := chainsPruned + 1;
          entriesPruned := entriesPruned + pruned;
        }
      }
      assert swept == heads;
    }

    /** One run over every chain: each chain is swept once, a chain whose sweep fails does
        not keep the others from being swept, and the counts are those of the rows lost. */
    method Run(now: int, cfgOf: ConfigOf, stopOf: StopOf)
      returns (chainsExamined: nat, chainsPruned: nat, entriesPruned: nat, ghost heads: seq<ChainId>)
      requires repo.Valid()
      modifies repo
      ensures repo.Valid()
      ensures Distinct(heads) && (forall c :: c in heads <==> old(repo.Rows(c)) != [])
      ensures SweptExactly(heads, old(repo.entries), old(repo.archived), repo.entries, repo.archived, now, cfgOf, stopOf)
      ensures chainsExamined == |heads|
      ensures (chainsPruned, entriesPruned) == Lost(heads, old(repo.entries), repo.entries)
      ensures forall c :: OnlyOldRemoved(old(repo.Rows(c)), repo.Rows(c), now, cfgOf(c).retentionDays)
    {
      ghost var e0, a0 := repo.entries, repo.archived;
      var hs := repo.ChainHeads();
      heads := hs;
      chainsPruned, entriesPruned := SweepHeads(hs, now, cfgOf, stopOf);
      chainsExamined := |hs|;
      SweptKeepYoung(heads, e0, a0, repo.entries, repo.archived, now, cfgOf, stopOf);
    }
  }

  lemma {:induction false} SweptKeepYoung(
      heads: seq<ChainId>, e0: map<ChainId, seq<Entry>>, a0: map<ChainId, seq<Archive>>,
      e1: map<ChainId, seq<Entry>>, a1: map<ChainId, seq<Archive>>,
      now: int, cfgOf: ConfigOf, stopOf: StopOf)
    requires (forall c <- e0 :: Ordered(e0[c])) && SweptExactly(heads, e0, a0, e1, a1, now, cfgOf, stopOf)
    ensures forall c :: OnlyOldRemoved(RowsIn(e0, c), RowsIn(e1, c), now, cfgOf(c).retentionDays)
  {
    forall c ensures OnlyOldRemoved(RowsIn(e0, c), RowsIn(e1, c), now, cfgOf(c).retentionDays) {
      if c in heads {
        SweepKeepsYoung(ChainIn(e0, a0, c), now, cfgOf(c).retentionDays, cfgOf(c).archiveBeforeDelete, stopOf(c));
      } else {
        assert ChainIn(e1, a1, c) == ChainIn(e0, a0, c);
      }
    }
  }

  function ChainIn(entries: map<ChainId, seq<Entry>>, archived: map<ChainId, seq<Archive>>, c: ChainId): Chain {
    Chain(RowsIn(entries, c), if c in archived then archived[c] else [])
  }

  /** Between two states of the tables, the first `n` rows of the chain were archived when
      asked to and then pruned, up to where the sweep stopped. */
  ghost predicate SweptBy(
      c: ChainId, n: nat, archiveFirst: bool, stop: Stop,
      e0: map<ChainId, seq<Entry>>, a0: map<ChainId, seq<Archive>>,
      e1: map<ChainId, seq<Entry>>, a1: map<ChainId, seq<Archive>>)
    requires 0 < n <= |RowsIn(e0, c)|
  {
    var rows := RowsIn(e0, c);
    && e1 == (if SweepOutcome(rows, n, archiveFirst, stop).None? then e0[c := rows[n..]] else e0)
    && a1 == (if archiveFirst && stop != BeforeArchiveRow && !BoundaryMissing(rows, n)
              then a0[c := ChainIn(e0, a0, c).archives + [ArchiveOf(rows, n)]] else a0)
  }

  lemma {:induction false} SweptByIsStep(
      c: ChainId, n: nat, archiveFirst: bool, stop: Stop,
      e0: map<ChainId, seq<Entry>>, a0: map<ChainId, seq<Archive>>,
      e1: map<ChainId, seq<Entry>>, a1: map<ChainId, seq<Archive>>)
    requires 0 < n <= |RowsIn(e0, c)| && SweptBy(c, n, archiveFirst, stop, e0, a0, e1, a1)
    ensures ChainIn(e1, a1, c) == SweepBy(ChainIn(e0, a0, c), n, archiveFirst, stop)
    ensures forall d :: d != c ==> ChainIn(e1, a1, d) == ChainIn(e0, a0, d)
  {
  }

  /** Between two states of the tables, the listed chains were swept and no other changed. */
  ghost predicate SweptExactly(
      heads: seq<ChainId>, e0: map<ChainId, seq<Entry>>, a0: map<ChainId, seq<Archive>>,
      e1: map<ChainId, seq<Entry>>, a1: map<ChainId, seq<Archive>>,
      now: int, cfgOf: ConfigOf, stopOf: StopOf)
  {
    && (forall c :: c in heads ==> ChainIn(e1, a1, c) == SweptChain(ChainIn(e0, a0, c), c, now, cfgOf, stopOf))
    && (forall c :: c !in heads ==> ChainIn(e1, a1, c) == ChainIn(e0, a0, c))
  }

  lemma {:induction false} SweptOneMore(
      heads: seq<ChainId>, c: ChainId, e0: map<ChainId, seq<Entry>>, a0: map<ChainId, seq<Archive>>,
      e1: map<ChainId, seq<Entry>>, a1: map<ChainId, seq<Archive>>,
      e2: map<ChainId, seq<Entry>>, a2: map<ChainId, seq<Archive>>,
      now: int, cfgOf: ConfigOf, stopOf: StopOf)
    requires SweptExactly(heads, e0, a0, e1, a1, now, cfgOf, stopOf) && c !in heads
    requires SweptOnly(c, e1, a1, e2, a2, now, cfgOf, stopOf)
    ensures SweptExactly(heads + [c], e0, a0, e2, a2, now, cfgOf, stopOf)
  {
    forall d
      ensures d in heads + [c] ==> ChainIn(e2, a2, d) == SweptChain(ChainIn(e0, a0, d), d, now, cfgOf, stopOf)
      ensures d !in heads + [c] ==> ChainIn(e2, a2, d) == ChainIn(e0, a0, d)
    {
      assert d in heads + [c] <==> d in heads || d == c;
      assert d != c ==> ChainIn(e2, a2, d) == ChainIn(e1, a1, d);
    }
  }

  lemma {:induction false} UnsweptUnchanged(
      heads: seq<ChainId>, c: ChainId, e0: map<ChainId, seq<Entry>>, a0: map<ChainId, seq<Archive>>,
      e1: map<ChainId, seq<Entry>>, a1: map<ChainId, seq<Archive>>,
      now: int, cfgOf: ConfigOf, stopOf: StopOf)
    requires SweptExactly(heads, e0, a0, e1, a1, now, cfgOf, stopOf) && c !in heads
    ensures RowsIn(e1, c) == RowsIn(e0, c)
  {
    assert ChainIn(e1, a1, c) == ChainIn(e0, a0, c);
  }

  ghost predicate SweptOnly(
      c: ChainId, e1: map<ChainId, seq<Entry>>, a1: map<ChainId, seq<Archive>>,
      e2: map<ChainId, seq<Entry>>, a2: map<ChainId, seq<Archive>>,
      now: int, cfgOf: ConfigOf, stopOf: StopOf)
  {
    && ChainIn(e2, a2, c) == SweptChain(ChainIn(e1, a1, c), c, now, cfgOf, stopOf)
    && (forall d :: d != c ==> ChainIn(e2, a2, d) == ChainIn(e1, a1, d))
  }

  lemma {:induction false} LostOneMoreSwept(
      heads: seq<ChainId>, c: ChainId, e0: map<ChainId, seq<Entry>>,
      e1: map<ChainId, seq<Entry>>, a1: map<ChainId, seq<Archive>>,
      e2: map<ChainId, seq<Entry>>, a2: map<ChainId, seq<Archive>>,
      now: int, cfgOf: ConfigOf, stopOf: StopOf)
    requires c !in heads && SweptOnly(c, e1, a1, e2, a2, now, cfgOf, stopOf)
    ensures var was, lost := Lost(heads, e0, e1), |RowsIn(e0, c)| - |RowsIn(e2, c)|;
      Lost(heads + [c], e0, e2) == (was.0 + (if lost > 0 then 1 else 0), was.1 + lost)
  {
    assert forall d :: d in heads ==> ChainIn(e2, a2, d).rows == ChainIn(e1, a1, d).rows;
    LostOneMore(heads, c, e0, e1, e2);
  }

  /** How many of the given chains got shorter, and by how many rows in all. */
  ghost function Lost(
      heads: seq<ChainId>, before: map<ChainId, seq<Entry>>, after: map<ChainId, seq<Entry>>): (int, int)
  {
    if heads == [] then (0, 0)
    else
      var c, rest := heads[|heads| - 1], Lost(heads[..|heads| - 1], before, after);
      var lost := |RowsIn(before, c)| - |RowsIn(after, c)|;
      (rest.0 + (if lost > 0 then 1 else 0), rest.1 + lost)
  }

  lemma {:induction false} LostUnaffected(
      heads: seq<ChainId>, before: map<ChainId, seq<Entry>>,
      earlier: map<ChainId, seq<Entry>>, later: map<ChainId, seq<Entry>>)
    requires forall d :: d in heads ==> RowsIn(later, d) == RowsIn(earlier, d)
    ensures Lost(heads, before, later) == Lost(heads, before, earlier)
  {
    if heads != [] {
      LostUnaffected(heads[..|heads| - 1], before, earlier, later);
    }
  }

  lemma {:induction false} LostOneMore(
      heads: seq<ChainId>, c: ChainId, before: map<ChainId, seq<Entry>>,
      earlier: map<ChainId, seq<Entry>>, later: map<ChainId, seq<Entry>>)
    requires forall d :: d in heads ==> RowsIn(later, d) == RowsIn(earlier, d)
    ensures var was, lost := Lost(heads, before, earlier), |RowsIn(before, c)| - |RowsIn(later, c)|;
      Lost(heads + [c], before, later) == (was.0 + (if lost > 0 then 1 else 0), was.1 + lost)
  {
    LostUnaffected(heads, before, earlier, later);
    assert (heads + [c])[..|heads|] == heads;
  }

  ghost function SweptChain(
      chain: Chain, c: ChainId, now: int, cfgOf: ConfigOf, stopOf: StopOf): Chain
  {
    SweepStep(chain, ComputeCutoff(now, cfgOf(c).retentionDays), cfgOf(c).archiveBeforeDelete, stopOf(c))
  }
}
