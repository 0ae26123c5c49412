/**
 The audit tables: the rows of each chain in the order of the (scope, guildId, seq)
 index, the archives in order of creation, and the queries of the audit repository
 over them. One method call is one database call.
 */
module AuditRepository {
  import opened Prelude
  import opened Utf16
  import opened AuditHash
  import opened AuditChain

  datatype ChainId = ChainId(scope: Text, guildId: Option<Text>)

  datatype Archive = Archive(fromSeq: int, toSeq: int, entryCount: int, rootHash: Text)

  datatype SeqConflict = SeqConflict(chain: ChainId, seqNo: int)

  /** How many rows one page holds. */
  const EXPORT_BATCH: nat := 500

  // ---- rows in index order ----

  ghost predicate Ordered(rows: seq<Entry>) {
    forall i, j :: 0 <= i < j < |rows| ==> rows[i].seqNo <= rows[j].seqNo
  }

  ghost predicate UniqueSeqs(rows: seq<Entry>) {
    forall i, j :: 0 <= i < j < |rows| ==> rows[i].seqNo < rows[j].seqNo
  }

  function InsertRow(rows: seq<Entry>, e: Entry): seq<Entry> {
    if rows == [] || e.seqNo < rows[0].seqNo then [e] + rows
    else [rows[0]] + InsertRow(rows[1..], e)
  }

  lemma {:induction false} InsertRowKeepsRows(rows: seq<Entry>, e: Entry)
    ensures multiset(InsertRow(rows, e)) == multiset(rows) + multiset{e}
  {
    if rows != [] && e.seqNo >= rows[0].seqNo {
      InsertRowKeepsRows(rows[1..], e);
      assert rows == [rows[0]] + rows[1..];
    }
  }

  lemma {:induction false} InsertRowOrdered(rows: seq<Entry>, e: Entry)
    requires Ordered(rows)
    ensures Ordered(InsertRow(rows, e))
    ensures forall i :: 0 <= i < |InsertRow(rows, e)| ==>
      InsertRow(rows, e)[i] == e || (rows != [] && rows[0].seqNo <= InsertRow(rows, e)[i].seqNo)
  {
    if rows != [] && e.seqNo >= rows[0].seqNo {
      InsertRowOrdered(rows[1..], e);
    }
  }

  lemma {:induction false} InsertRowLast(rows: seq<Entry>, e: Entry)
    requires forall i :: 0 <= i < |rows| ==> rows[i].seqNo < e.seqNo
    ensures InsertRow(rows, e) == rows + [e]
  {
    if rows != [] {
      InsertRowLast(rows[1..], e);
      assert rows + [e] == [rows[0]] + (rows[1..] + [e]);
    }
  }

  predicate Within(e: Entry, afterSeq: int, upToSeq: Option<int>) {
    e.seqNo > afterSeq && (upToSeq.Some? ==> e.seqNo <= upToSeq.value)
  }

  /** The rows with seq in (afterSeq, upToSeq], in index order. */
  function RowsWithin(rows: seq<Entry>, afterSeq: int, upToSeq: Option<int>): (r: seq<Entry>)
    ensures forall e <- r :: Within(e, afterSeq, upToSeq) && e in rows
  {
    if rows == [] then []
    else if Within(rows[0], afterSeq, upToSeq) then [rows[0]] + RowsWithin(rows[1..], afterSeq, upToSeq)
    else RowsWithin(rows[1..], afterSeq, upToSeq)
  }

  lemma {:induction false} RowsWithinAll(rows: seq<Entry>, afterSeq: int)
    requires forall i :: 0 <= i < |rows| ==> rows[i].seqNo > afterSeq
    ensures RowsWithin(rows, afterSeq, None) == rows
  {
    if rows != [] {
      RowsWithinAll(rows[1..], afterSeq);
    }
  }

  /** Moving the cursor to a row that is left leaves fewer rows. */
  lemma {:induction false} RowsWithinShrinks(rows: seq<Entry>, a: int, b: int, upToSeq: Option<int>)
    requires a < b
    ensures |RowsWithin(rows, b, upToSeq)| <= |RowsWithin(rows, a, upToSeq)|
    ensures (exists e <- RowsWithin(rows, a, upToSeq) :: e.seqNo == b) ==>
      |RowsWithin(rows, b, upToSeq)| < |RowsWithin(rows, a, upToSeq)|
  {
    if rows != [] {
      RowsWithinShrinks(rows[1..], a, b, upToSeq);
    }
  }

  lemma {:induction false} RowsWithinOrdered(rows: seq<Entry>, afterSeq: int, upToSeq: Option<int>)
    requires Ordered(rows)
    ensures Ordered(RowsWithin(rows, afterSeq, upToSeq))
  {
    if rows != [] {
      RowsWithinOrdered(rows[1..], afterSeq, upToSeq);
      var rest := RowsWithin(rows[1..], afterSeq, upToSeq);
      assert forall i :: 0 <= i < |rest| ==> rest[i] in rows[1..];
    }
  }

  lemma {:induction false} RowsWithinUnique(rows: seq<Entry>, afterSeq: int, upToSeq: Option<int>)
    requires UniqueSeqs(rows)
    ensures UniqueSeqs(RowsWithin(rows, afterSeq, upToSeq))
  {
    if rows != [] {
      RowsWithinUnique(rows[1..], afterSeq, upToSeq);
      var rest := RowsWithin(rows[1..], afterSeq, upToSeq);
      assert forall i :: 0 <= i < |rest| ==> rest[i] in rows[1..];
    }
  }

  // ---- the next entry of a chain ----

  function NextSeq(rows: seq<Entry>): int {
    if rows == [] then 1 else rows[|rows| - 1].seqNo + 1
  }

  function TailHash(rows: seq<Entry>): Option<Text> {
    if rows == [] then None else Some(rows[|rows| - 1].hash)
  }

  /** The entry a serialised append stores. */
  function NextEntry(h: Hasher, rows: seq<Entry>, id: Text, draft: Draft, now: int): Entry {
    Entry(id, draft, NextSeq(rows), TailHash(rows), h(draft, NextSeq(rows), TailHash(rows)), now)
  }

  /** Storing an entry derived from the tail keeps the chain intact. */
  lemma {:induction false} NextKeepsIntact(h: Hasher, rows: seq<Entry>, anchor: Option<Anchor>, e: Entry)
    requires Intact(h, rows, anchor)
    requires e.seqNo == NextSeq(rows) && e.previousHash == TailHash(rows) && Rehashes(h, e)
    ensures Intact(h, rows + [e], anchor)
  {
    var longer := rows + [e];
    assert longer[..|rows|] == rows && longer[..|rows| + 1] == longer;
    IntactExtends(h, longer, |rows|, anchor);
  }

  /** The chain that serialised appends of the entries' own drafts make. */
  function Replay(h: Hasher, rows: seq<Entry>): seq<Entry> {
    if rows == [] then []
    else
      var before, last := Replay(h, rows[..|rows| - 1]), rows[|rows| - 1];
      before + [NextEntry(h, before, last.id, last.draft, last.createdAt)]
  }

  /** A chain from seq 1 is intact, whatever the anchor, exactly when appending its drafts
      one after the other makes the very same chain. */
  lemma {:induction false} IntactIsReplay(h: Hasher, rows: seq<Entry>, anchor: Option<Anchor>)
    requires rows != [] ==> rows[0].seqNo == 1
    ensures Intact(h, rows, anchor) <==> Replay(h, rows) == rows
  {
    if rows != [] {
      var n := |rows| - 1;
      IntactIsReplay(h, rows[..n], anchor);
      ReplayNext(h, rows, anchor);
    }
  }

  lemma {:induction false} ReplayNext(h: Hasher, rows: seq<Entry>, anchor: Option<Anchor>)
    requires rows != [] && rows[0].seqNo == 1
    requires var front := rows[..|rows| - 1]; Intact(h, front, anchor) <==> Replay(h, front) == front
    ensures Intact(h, rows, anchor) <==> Replay(h, rows) == rows
  {
    var n := |rows| - 1;
    var front, last := rows[..n], rows[n];
    assert rows[..n + 1] == rows && rows == front + [last];
    if Intact(h, rows, anchor) {
      IntactPrefix(h, rows, n, anchor);
    }
    if Intact(h, front, anchor) {
      IntactExtends(h, rows, n, anchor);
      NextIsOk(h, front, last, anchor);
    } else {
      SplitReplay(Replay(h, front), front, NextEntry(h, Replay(h, front), last.id, last.draft, last.createdAt), last);
    }
  }

  lemma {:induction false} SplitReplay(a: seq<Entry>, b: seq<Entry>, x: Entry, y: Entry)
    requires a != b
    ensures a + [x] != b + [y]
  {
    if a + [x] == b + [y] {
      assert |a + [x]| == |b + [y]|;
      SplitEqual(a, [x], b, [y]);
    }
  }

  /** The check of one entry behind a chain from seq 1 says that it is the next one. */
  lemma {:induction false} NextIsOk(h: Hasher, front: seq<Entry>, last: Entry, anchor: Option<Anchor>)
    requires if front == [] then last.seqNo == 1 else true
    ensures EntryOk(h, if front == [] then None else Some(front[|front| - 1]), last, anchor)
       <==> NextEntry(h, front, last.id, last.draft, last.createdAt) == last
  {
  }

  /** An intact chain is numbered without gaps. */
  lemma {:induction false} IntactIsContiguous(h: Hasher, rows: seq<Entry>, anchor: Option<Anchor>)
    requires Intact(h, rows, anchor)
    ensures forall i :: 0 <= i < |rows| ==> rows[i].seqNo == rows[0].seqNo + i
    ensures UniqueSeqs(rows)
  {
    forall i | 0 <= i < |rows| ensures rows[i].seqNo == rows[0].seqNo + i {
      IntactSeqs(h, rows, i, anchor);
    }
  }

  /** How many entries at the front of the chain are all older than the cutoff. */
  function OldPrefix(rows: seq<Entry>, cutoff: int): (n: nat)
    ensures n <= |rows|
    ensures forall i :: 0 <= i < n ==> rows[i].draft.occurredAt < cutoff
    ensures n < |rows| ==> rows[n].draft.occurredAt >= cutoff
  {
    if rows == [] || rows[0].draft.occurredAt >= cutoff then 0 else 1 + OldPrefix(rows[1..], cutoff)
  }

  /** The first row stored under the seq. */
  function BySeq(rows: seq<Entry>, seqNo: int): (r: Option<Entry>)
    ensures r.None? <==> forall e <- rows :: e.seqNo != seqNo
    ensures r.Some? ==> r.value in rows && r.value.seqNo == seqNo
  {
    if rows == [] then None
    else if rows[0].seqNo == seqNo then Some(rows[0])
    else BySeq(rows[1..], seqNo)
  }

  // ---- paging through a chain ----

  function Page(rows: seq<Entry>, cursor: int, upToSeq: Option<int>, take: nat): seq<Entry> {
    var left := RowsWithin(rows, cursor, upToSeq);
    if |left| <= take then left else left[..take]
  }

  lemma {:induction false} PageIsFront(rows: seq<Entry>, cursor: int, upToSeq: Option<int>, take: nat)
    requires take >= 1
    ensures var page, left := Page(rows, cursor, upToSeq, take), RowsWithin(rows, cursor, upToSeq);
      && |page| <= |left| && page == left[..|page|] && left == page + left[|page|..]
      && (page == [] <==> left == [])
      && (page != [] ==> page[|page| - 1] == left[|page| - 1] && page[|page| - 1] in left)
  {
  }

  /** What the paging loop yields on an unchanging table. */
  function Iterated(rows: seq<Entry>, cursor: int, upToSeq: Option<int>, batch: nat): seq<Entry>
    requires batch >= 1
    decreases |RowsWithin(rows, cursor, upToSeq)|
  {
    var page := Page(rows, cursor, upToSeq, batch);
    if page == [] then []
    else
      var next := page[|page| - 1];
      assert next in RowsWithin(rows, cursor, upToSeq);
      RowsWithinShrinks(rows, cursor, next.seqNo, upToSeq);
      page + Iterated(rows, next.seqNo, upToSeq, batch)
  }

  // ---- when paging is complete ----

  lemma {:induction false} RowsWithinNone(rows: seq<Entry>, afterSeq: int, upToSeq: Option<int>)
    requires forall i :: 0 <= i < |rows| ==> rows[i].seqNo <= afterSeq
    ensures RowsWithin(rows, afterSeq, upToSeq) == []
  {
    if rows != [] {
      RowsWithinNone(rows[1..], afterSeq, upToSeq);
    }
  }

  lemma {:induction false} RowsBehind(seen: seq<Entry>, rest: seq<Entry>, afterSeq: int, upToSeq: Option<int>)
    requires forall i :: 0 <= i < |seen| ==> seen[i].seqNo <= afterSeq
    ensures RowsWithin(seen + rest, afterSeq, upToSeq) == RowsWithin(rest, afterSeq, upToSeq)
  {
    if seen == [] {
      assert seen + rest == rest;
    } else {
      assert seen + rest == [seen[0]] + (seen[1..] + rest);
      HeadTail(seen[0], seen[1..] + rest);
      RowsBehind(seen[1..], rest, afterSeq, upToSeq);
    }
  }

  lemma {:induction false} RowsWithinKept(rows: seq<Entry>, afterSeq: int, upToSeq: Option<int>)
    requires forall i :: 0 <= i < |rows| ==> Within(rows[i], afterSeq, upToSeq)
    ensures RowsWithin(rows, afterSeq, upToSeq) == rows
  {
    if rows != [] {
      RowsWithinKept(rows[1..], afterSeq, upToSeq);
    }
  }

  /** The cursor stands between rows of different seqs, or behind the last. */
  predicate CleanCut(left: seq<Entry>, k: int)
    requires 0 < k <= |left|
  {
    k == |left| || left[k - 1].seqNo < left[k].seqNo
  }

  /** Of rows in order, those with a seq above that of the k-th stand behind it. */
  lemma {:induction false} OnlyBehind(left: seq<Entry>, k: nat, upToSeq: Option<int>)
    requires Ordered(left) && 0 < k <= |left|
    ensures RowsWithin(left, left[k - 1].seqNo, upToSeq) == RowsWithin(left[k..], left[k - 1].seqNo, upToSeq)
  {
    RowsBehind(left[..k], left[k..], left[k - 1].seqNo, upToSeq);
    assert left == left[..k] + left[k..];
  }

  /** They are all of the rows behind it, or fewer. */
  lemma {:induction false} BehindCut(left: seq<Entry>, k: nat, upToSeq: Option<int>)
    requires Ordered(left) && 0 < k <= |left|
    requires forall i :: 0 <= i < |left| ==> upToSeq.Some? ==> left[i].seqNo <= upToSeq.value
    ensures CleanCut(left, k) ==> RowsWithin(left, left[k - 1].seqNo, upToSeq) == left[k..]
    ensures !CleanCut(left, k) ==> |RowsWithin(left, left[k - 1].seqNo, upToSeq)| < |left| - k
  {
    OnlyBehind(left, k, upToSeq);
    if CleanCut(left, k) {
      RowsWithinKept(left[k..], left[k - 1].seqNo, upToSeq);
    } else {
      RowsWithinAtMost(left[k..][1..], left[k - 1].seqNo, upToSeq);
    }
  }

  /** Resuming after the k-th row that is left: the others follow, or some are skipped. */
  lemma {:induction false} AfterCut(rows: seq<Entry>, cursor: int, upToSeq: Option<int>, k: nat)
    requires Ordered(rows) && 0 < k <= |RowsWithin(rows, cursor, upToSeq)|
    ensures var left := RowsWithin(rows, cursor, upToSeq);
      var next := RowsWithin(rows, left[k - 1].seqNo, upToSeq);
      && (CleanCut(left, k) ==> next == left[k..])
      && (!CleanCut(left, k) ==> |next| < |left| - k)
  {
    var left := RowsWithin(rows, cursor, upToSeq);
    assert left[k - 1] in left && forall i :: 0 <= i < |left| ==> left[i] in left;
    RowsWithinOrdered(rows, cursor, upToSeq);
    RowsWithinTwice(rows, cursor, left[k - 1].seqNo, upToSeq);
    BehindCut(left, k, upToSeq);
  }

  lemma {:induction false} IteratedAtMost(rows: seq<Entry>, cursor: int, upToSeq: Option<int>, batch: nat)
    requires batch >= 1 && Ordered(rows)
    ensures |Iterated(rows, cursor, upToSeq, batch)| <= |RowsWithin(rows, cursor, upToSeq)|
    decreases |RowsWithin(rows, cursor, upToSeq)|
  {
    var left := RowsWithin(rows, cursor, upToSeq);
    if |left| <= batch {
      LastPage(rows, cursor, upToSeq, batch);
    } else {
      FullPage(rows, cursor, upToSeq, batch);
      AfterCut(rows, cursor, upToSeq, batch);
      IteratedAtMost(rows, left[batch - 1].seqNo, upToSeq, batch);
    }
  }

  /** Every full page ends where a seq ends. */
  predicate CleanPages(left: seq<Entry>, batch: nat)
    requires batch >= 1
  {
    |left| <= batch || (CleanCut(left, batch) && CleanPages(left[batch..], batch))
  }

  /** The i-th row is the first of a page. */
  predicate PageStart(i: nat, batch: nat)
    requires batch >= 1
  {
    if i < batch then i == 0 else PageStart(i - batch, batch)
  }

  lemma {:induction false} PageStartIsMultiple(i: nat, batch: nat)
    requires batch >= 1
    ensures PageStart(i, batch) <==> i % batch == 0
  {
    if i >= batch {
      PageStartIsMultiple(i - batch, batch);
      NextMultiple(i - batch, batch);
    }
  }

  lemma {:induction false} NextMultiple(i: nat, batch: nat)
    requires batch >= 1
    ensures (i + batch) % batch == i % batch
  {
    var p, r: int := (i + batch) / batch - (i / batch + 1), i % batch;
    var r': int := (i + batch) % batch;
    assert p * batch == r - r';
    assert p >= 1 ==> p * batch >= batch;
    assert p <= -1 ==> p * batch <= 0 - batch;
  }

  /** No page starts with the seq of the row before. */
  ghost predicate PagesRise(left: seq<Entry>, batch: nat)
    requires batch >= 1
  {
    forall i :: 0 < i < |left| && PageStart(i, batch) ==> left[i - 1].seqNo < left[i].seqNo
  }

  lemma {:induction false} CleanPagesMeans(left: seq<Entry>, batch: nat)
    requires batch >= 1
    ensures CleanPages(left, batch) <==> PagesRise(left, batch)
    decreases |left|
  {
    if |left| > batch {
      CleanPagesMeans(left[batch..], batch);
      PagesRiseBehindFirst(left, batch);
    } else {
      assert forall i :: 0 < i < |left| ==> !PageStart(i, batch);
    }
  }

  lemma {:induction false} PagesRiseBehindFirst(left: seq<Entry>, batch: nat)
    requires 1 <= batch < |left|
    ensures PagesRise(left, batch) <==> left[batch - 1].seqNo < left[batch].seqNo && PagesRise(left[batch..], batch)
  {
    var rest := left[batch..];
    assert PageStart(0, batch);
    if left[batch - 1].seqNo < left[batch].seqNo && PagesRise(rest, batch) {
      forall i | 0 < i < |left| && PageStart(i, batch) ensures left[i - 1].seqNo < left[i].seqNo {
        assert i > batch ==> rest[i - batch - 1].seqNo < rest[i - batch].seqNo;
      }
    }
    if PagesRise(left, batch) {
      forall i | 0 < i < |rest| && PageStart(i, batch) ensures rest[i - 1].seqNo < rest[i].seqNo {
        assert PageStart(i + batch, batch);
      }
    }
  }

  lemma {:induction false} PagesSplit(left: seq<Entry>, page: seq<Entry>, rest: seq<Entry>, k: nat)
    requires k == |page| <= |left| && page == left[..k]
    ensures page + rest == left <==> rest == left[k..]
  {
    assert left == left[..k] + left[k..];
    if page + rest == left {
      SplitEqual(page, rest, left[..k], left[k..]);
    }
  }

  lemma {:induction false} LastPage(rows: seq<Entry>, cursor: int, upToSeq: Option<int>, batch: nat)
    requires batch >= 1 && Ordered(rows) && |RowsWithin(rows, cursor, upToSeq)| <= batch
    ensures Iterated(rows, cursor, upToSeq, batch) == RowsWithin(rows, cursor, upToSeq)
  {
    var left := RowsWithin(rows, cursor, upToSeq);
    PageIsFront(rows, cursor, upToSeq, batch);
    if left != [] {
      AfterCut(rows, cursor, upToSeq, |left|);
      assert RowsWithin(rows, left[|left| - 1].seqNo, upToSeq) == left[|left|..] == [];
    }
  }

  lemma {:induction false} FullPage(rows: seq<Entry>, cursor: int, upToSeq: Option<int>, batch: nat)
    requires 1 <= batch < |RowsWithin(rows, cursor, upToSeq)|
    ensures var left := RowsWithin(rows, cursor, upToSeq);
      Iterated(rows, cursor, upToSeq, batch) == left[..batch] + Iterated(rows, left[batch - 1].seqNo, upToSeq, batch)
  {
    PageIsFront(rows, cursor, upToSeq, batch);
  }

  lemma {:induction false} IteratedIsCleanPages(rows: seq<Entry>, cursor: int, upToSeq: Option<int>, batch: nat)
    requires batch >= 1 && Ordered(rows)
    ensures Iterated(rows, cursor, upToSeq, batch) == RowsWithin(rows, cursor, upToSeq)
       <==> CleanPages(RowsWithin(rows, cursor, upToSeq), batch)
    decreases |RowsWithin(rows, cursor, upToSeq)|
  {
    var left := RowsWithin(rows, cursor, upToSeq);
    if |left| <= batch {
      LastPage(rows, cursor, upToSeq, batch);
    } else {
      var next := left[batch - 1].seqNo;
      AfterCut(rows, cursor, upToSeq, batch);
      FullPage(rows, cursor, upToSeq, batch);
      IteratedAtMost(rows, next, upToSeq, batch);
      PagesSplit(left, left[..batch], Iterated(rows, next, upToSeq, batch), batch);
      assert |RowsWithin(rows, next, upToSeq)| <= |left| - batch;
      IteratedIsCleanPages(rows, next, upToSeq, batch);
    }
  }

  /** For any page size, paging yields every row of the range exactly when no two rows
      with one seq stand on both sides of the end of a full page. */
  lemma {:induction false} PagingIsCompleteExactlyWhen(rows: seq<Entry>, cursor: int, upToSeq: Option<int>, batch: nat)
    requires batch >= 1 && Ordered(rows)
    ensures var left := RowsWithin(rows, cursor, upToSeq);
      Iterated(rows, cursor, upToSeq, batch) == left
      <==> forall i :: 0 < i < |left| && i % batch == 0 ==> left[i - 1].seqNo < left[i].seqNo
  {
    IteratedIsCleanPages(rows, cursor, upToSeq, batch);
    CleanPagesMeans(RowsWithin(rows, cursor, upToSeq), batch);
    forall i: nat ensures PageStart(i, batch) <==> i % batch == 0 {
      PageStartIsMultiple(i, batch);
    }
  }

  /** A row is in a range exactly when its seq is above the one bound and not above the
      other, and it is there as often as in the table. */
  lemma {:induction false} RowsWithinMeans(rows: seq<Entry>, afterSeq: int, upToSeq: Option<int>, e: Entry)
    ensures multiset(RowsWithin(rows, afterSeq, upToSeq))[e] ==
      if e.seqNo > afterSeq && (upToSeq.None? || e.seqNo <= upToSeq.value) then multiset(rows)[e] else 0
  {
    if rows != [] {
      RowsWithinMeans(rows[1..], afterSeq, upToSeq, e);
      assert rows == [rows[0]] + rows[1..];
    }
  }

  /** With distinct seqs, paging yields every row of the range once and in order. */
  lemma {:induction false} IteratedIsComplete(rows: seq<Entry>, cursor: int, upToSeq: Option<int>, batch: nat)
    requires batch >= 1 && UniqueSeqs(rows)
    ensures Iterated(rows, cursor, upToSeq, batch) == RowsWithin(rows, cursor, upToSeq)
  {
    RowsWithinUnique(rows, cursor, upToSeq);
    PagingIsCompleteExactlyWhen(rows, cursor, upToSeq, batch);
  }

  lemma {:induction false} ForkIsOrdered(rows: seq<Entry>, b: Entry, cursor: int)
    requires Ordered(rows) && rows != [] && rows[0].seqNo > cursor && b.seqNo == rows[|rows| - 1].seqNo
    ensures var all := rows + [b];
      Ordered(all) && (forall i :: 0 <= i < |all| ==> cursor < all[i].seqNo <= b.seqNo)
  {
  }

  /** A fork behind a full page is never read. */
  lemma {:induction false} ForkBehindPageIsLost(rows: seq<Entry>, b: Entry, cursor: int, batch: nat)
    requires Ordered(rows) && |rows| == batch >= 1 && rows[0].seqNo > cursor && b.seqNo == rows[batch - 1].seqNo
    ensures RowsWithin(rows + [b], cursor, None) == rows + [b]
    ensures Iterated(rows + [b], cursor, None, batch) == rows
  {
    var all := rows + [b];
    ForkIsOrdered(rows, b, cursor);
    RowsWithinAll(all, cursor);
    RowsWithinNone(all, b.seqNo, None);
    FullPage(all, cursor, None, batch);
    LastPage(all, b.seqNo, None, batch);
    assert all[..batch] == rows;
  }

  /** At the page size of the code: the row that repeats the 500th is lost, and two rows
      alone are both read. */
  lemma {:induction false} PagesOfTheCode(rows: seq<Entry>, b: Entry, x: Entry, y: Entry)
    requires Ordered(rows) && |rows| == 500 && rows[0].seqNo > 0 && b.seqNo == rows[499].seqNo
    requires x.seqNo == y.seqNo > 0
    ensures Iterated(rows + [b], 0, None, EXPORT_BATCH) == rows != RowsWithin(rows + [b], 0, None)
    ensures Iterated([x, y], 0, None, EXPORT_BATCH) == [x, y]
  {
    ForkBehindPageIsLost(rows, b, 0, EXPORT_BATCH);
    RowsWithinAll([x, y], 0);
    LastPage([x, y], 0, None, EXPORT_BATCH);
  }

  /** Paging is complete whatever the page size exactly when the seqs are distinct. */
  lemma {:induction false} PagingNeedsUniqueSeqs(rows: seq<Entry>, cursor: int, upToSeq: Option<int>)
    requires Ordered(rows)
    ensures (forall batch: nat :: batch >= 1 ==>
               Iterated(rows, cursor, upToSeq, batch) == RowsWithin(rows, cursor, upToSeq))
        <==> UniqueSeqs(RowsWithin(rows, cursor, upToSeq))
  {
    var left := RowsWithin(rows, cursor, upToSeq);
    RowsWithinOrdered(rows, cursor, upToSeq);
    forall batch: nat | batch >= 1 && UniqueSeqs(left) ensures Iterated(rows, cursor, upToSeq, batch) == left {
      PagingIsCompleteExactlyWhen(rows, cursor, upToSeq, batch);
    }
    PagingIsCompleteExactlyWhen(rows, cursor, upToSeq, 1);
    if Iterated(rows, cursor, upToSeq, 1) == left {
      forall i | 0 < i < |left| ensures left[i - 1].seqNo < left[i].seqNo {
        assert i % 1 == 0;
      }
      AscendingIsUnique(left);
    }
  }

  lemma {:induction false} AscendingIsUnique(rows: seq<Entry>)
    requires Ordered(rows) && forall i :: 0 < i < |rows| ==> rows[i - 1].seqNo < rows[i].seqNo
    ensures UniqueSeqs(rows)
  {
    forall i, j | 0 <= i < j < |rows| ensures rows[i].seqNo < rows[j].seqNo {
      assert rows[i].seqNo <= rows[j - 1].seqNo < rows[j].seqNo;
    }
  }

  // ---- what verification of the rows read says of the rows stored ----

  /** The stored chain is intact exactly when what paging reads of it is and no repeated
      seq stands across the end of a full page. */
  lemma {:induction false} StoredIsIntactExactlyWhen(h: Hasher, rows: seq<Entry>, anchor: Option<Anchor>, batch: nat)
    requires batch >= 1 && Ordered(rows)
    ensures var stored := RowsWithin(rows, 0, None);
      Intact(h, stored, anchor)
      <==> Intact(h, Iterated(rows, 0, None, batch), anchor)
           && forall i :: 0 < i < |stored| && i % batch == 0 ==> stored[i - 1].seqNo < stored[i].seqNo
  {
    var stored := RowsWithin(rows, 0, None);
    PagingIsCompleteExactlyWhen(rows, 0, None, batch);
    if Intact(h, stored, anchor) {
      IntactIsContiguous(h, stored, anchor);
    }
  }

  /** So an intact chain of 500 entries with a fork of its last one verifies, though what
      is stored is not intact. */
  lemma {:induction false} ForkCanVerify(h: Hasher, rows: seq<Entry>, b: Entry, anchor: Option<Anchor>)
    requires Intact(h, rows, anchor) && |rows| == 500 && rows[0].seqNo == 1
    requires b.seqNo == rows[499].seqNo
    ensures Ordered(rows + [b]) && Intact(h, Iterated(rows + [b], 0, None, EXPORT_BATCH), anchor)
    ensures !Intact(h, RowsWithin(rows + [b], 0, None), anchor)
  {
    var all := rows + [b];
    IntactIsContiguous(h, rows, anchor);
    ForkBehindPageIsLost(rows, b, 0, EXPORT_BATCH);
    assert all[499].seqNo == all[500].seqNo;
    if Intact(h, all, anchor) {
      IntactIsContiguous(h, all, anchor);
      assert false;
    }
  }

  lemma {:induction false} RowsWithinTwice(rows: seq<Entry>, a: int, b: int, upToSeq: Option<int>)
    requires a <= b
    ensures RowsWithin(RowsWithin(rows, a, upToSeq), b, upToSeq) == RowsWithin(rows, b, upToSeq)
  {
    if rows != [] {
      RowsWithinTwice(rows[1..], a, b, upToSeq);
      if Within(rows[0], a, upToSeq) {
        HeadTail(rows[0], RowsWithin(rows[1..], a, upToSeq));
      }
    }
  }

  // ---- archives ----

  /** The newest archive that ends at `toSeq`; later archives stand later. */
  function NewestAnchor(archives: seq<Archive>, toSeq: int): Option<Anchor> {
    if archives == [] then None
    else
      var last := archives[|archives| - 1];
      if last.toSeq == toSeq then Some(Anchor(toSeq, last.rootHash))
      else NewestAnchor(archives[..|archives| - 1], toSeq)
  }

  ghost predicate LastEndingAt(archives: seq<Archive>, toSeq: int, i: nat)
    requires i < |archives|
  {
    archives[i].toSeq == toSeq && forall j :: i < j < |archives| ==> archives[j].toSeq != toSeq
  }

  /** The anchor `verifyChain` looks up for the rows that are left. */
  function AnchorFor(rows: seq<Entry>, archives: seq<Archive>): Option<Anchor> {
    if rows != [] && rows[0].seqNo > 1 then NewestAnchor(archives, rows[0].seqNo - 1) else None
  }

  // ---- the repository ----

  function RowsIn(entries: map<ChainId, seq<Entry>>, c: ChainId): seq<Entry> {
    if c in entries then entries[c] else []
  }

  class Repository {
    var entries: map<ChainId, seq<Entry>>
    var archived: map<ChainId, seq<Archive>>

    ghost predicate Valid()
      reads this
    {
      forall c <- entries :: Ordered(entries[c])
    }

    function Rows(c: ChainId): seq<Entry>
      reads this
    {
      RowsIn(entries, c)
    }

    function Archives(c: ChainId): seq<Archive>
      reads this
    {
      if c in archived then archived[c] else []
    }

    predicate HashTaken(hash: Text)
      reads this
    {
      exists c :: c in entries && exists e :: e in entries[c] && e.hash == hash
    }

    /** The unique indexes of the table: NULLs are distinct, so the first one binds
        only chains with a guild. */
    predicate Conflicts(c: ChainId, seqNo: int, hash: Text)
      reads this
    {
      (c.guildId.Some? && exists e :: e in Rows(c) && e.seqNo == seqNo) || HashTaken(hash)
    }

    constructor ()
      ensures Valid() && entries == map[] && archived == map[]
    {
      entries, archived := map[], map[];
    }

    method Append(id: Text, draft: Draft, seqNo: int, previousHash: Option<Text>, hash: Text, now: int)
      returns (r: Result<Entry, SeqConflict>)
      requires Valid()
      modifies this`entries
      ensures Valid()
      ensures var c := ChainId(draft.scope, draft.guildId);
        if old(Conflicts(c, seqNo, hash)) then
          r == Err(SeqConflict(c, seqNo)) && entries == old(entries)
        else
          && r == Ok(Entry(id, draft, seqNo, previousHash, hash, now))
          && entries == old(entries)[c := InsertRow(old(Rows(c)), r.value)]
      ensures r.Err? <==>
        || (draft.guildId.Some? && exists e :: e in old(Rows(ChainId(draft.scope, draft.guildId))) && e.seqNo == seqNo)
        || exists d, e :: d in old(entries) && e in old(entries)[d] && e.hash == hash
    {
      var c := ChainId(draft.scope, draft.guildId);
      if Conflicts(c, seqNo, hash) {
        return Err(SeqConflict(c, seqNo));
      }
      var e := Entry(id, draft, seqNo, previousHash, hash, now);
      InsertRowOrdered(Rows(c), e);
      entries := entries[c := InsertRow(Rows(c), e)];
      r := Ok(e);
    }

    method FindLast(c: ChainId) returns (r: Option<Entry>)
      requires Valid()
      ensures r.None? <==> Rows(c) == []
      ensures r.Some? ==> r.value == Rows(c)[|Rows(c)| - 1] && forall e <- Rows(c) :: e.seqNo <= r.value.seqNo
    {
      var rows := Rows(c);
      r := if rows == [] then None else Some(rows[|rows| - 1]);
    }

    method FirstSeq(c: ChainId) returns (r: Option<int>)
      requires Valid()
      ensures r == if Rows(c) == [] then None else Some(Rows(c)[0].seqNo)
      ensures r.Some? ==> forall e <- Rows(c) :: r.value <= e.seqNo
    {
      var rows := Rows(c);
      r := if rows == [] then None else Some(rows[0].seqNo);
    }

    method FindBySeq(c: ChainId, seqNo: int) returns (r: Option<Entry>)
      ensures r.None? <==> forall e <- Rows(c) :: e.seqNo != seqNo
      ensures r.Some? ==> r.value in Rows(c) && r.value.seqNo == seqNo
      ensures r == BySeq(Rows(c), seqNo)
    {
      var rows := Rows(c);
      for i := 0 to |rows|
        invariant BySeq(rows, seqNo) == BySeq(rows[i..], seqNo)
      {
        if rows[i].seqNo == seqNo {
          return Some(rows[i]);
        }
        assert rows[i..][1..] == rows[i + 1..];
      }
      r := None;
    }

    /** The smallest seq whose entry occurred at or after the cutoff. */
    method FirstSeqAtOrAfter(c: ChainId, cutoff: int) returns (r: Option<int>)
      requires Valid()
      ensures var n := OldPrefix(Rows(c), cutoff);
        r == if n == |Rows(c)| then None else Some(Rows(c)[n].seqNo)
      ensures r.Some? ==> forall e <- Rows(c) :: e.draft.occurredAt >= cutoff ==> e.seqNo >= r.value
    {
      var rows := Rows(c);
      var i := 0;
      while i < |rows|
        invariant 0 <= i <= |rows|
        invariant OldPrefix(rows, cutoff) == i + OldPrefix(rows[i..], cutoff)
        invariant forall j :: 0 <= j < i ==> rows[j].draft.occurredAt < cutoff
      {
        if rows[i].draft.occurredAt >= cutoff {
          return Some(rows[i].seqNo);
        }
        assert rows[i..][1..] == rows[i + 1..];
        i := i + 1;
      }
      r := None;
    }

    method IterateChainRange(c: ChainId, afterSeq: int, upToSeq: Option<int>, batch: nat)
      returns (yielded: seq<Entry>)
      requires batch >= 1
      ensures yielded == Iterated(Rows(c), afterSeq, upToSeq, batch)
      ensures UniqueSeqs(Rows(c)) ==> yielded == RowsWithin(Rows(c), afterSeq, upToSeq)
    {
      var table := Rows(c);
      var cursor := afterSeq;
      yielded := [];
      while true
        invariant yielded + Iterated(table, cursor, upToSeq, batch) == Iterated(table, afterSeq, upToSeq, batch)
        decreases |RowsWithin(table, cursor, upToSeq)|
      {
        var rows := Page(table, cursor, upToSeq, batch);
        if |rows| == 0 {
          break;
        }
        var next := rows[|rows| - 1].seqNo;
        assert rows[|rows| - 1] in RowsWithin(table, cursor, upToSeq);
        RowsWithinShrinks(table, cursor, next, upToSeq);
        Regroup3(yielded, rows, Iterated(table, next, upToSeq, batch));
        yielded := yielded + rows;
        cursor := next;
      }
      if UniqueSeqs(table) {
        IteratedIsComplete(table, afterSeq, upToSeq, batch);
      }
    }

    method FindAnchor(c: ChainId, toSeq: int) returns (r: Option<Anchor>)
      ensures r == NewestAnchor(Archives(c), toSeq)
      ensures r.None? <==> forall a <- Archives(c) :: a.toSeq != toSeq
      ensures r.Some? ==> exists i :: 0 <= i < |Archives(c)| && LastEndingAt(Archives(c), toSeq, i)
                                      && r.value == Anchor(toSeq, Archives(c)[i].rootHash)
    {
      var archives := Archives(c);
      var i := |archives|;
      assert archives[..i] == archives;
      while i > 0
        invariant 0 <= i <= |archives|
        invariant NewestAnchor(archives, toSeq) == NewestAnchor(archives[..i], toSeq)
        invariant forall j :: i <= j < |archives| ==> archives[j].toSeq != toSeq
      {
        assert archives[..i][..i - 1] == archives[..i - 1];
        i := i - 1;
        if archives[i].toSeq == toSeq {
          assert LastEndingAt(archives, toSeq, i);
          return Some(Anchor(toSeq, archives[i].rootHash));
        }
      }
      r := None;
    }

    method CreateArchive(c: ChainId, a: Archive)
      modifies this`archived
      ensures archived == old(archived)[c := old(Archives(c)) + [a]]
    {
      archived := archived[c := Archives(c) + [a]];
    }

    method PruneUpTo(c: ChainId, toSeq: int) returns (count: nat)
      requires Valid()
      modifies this`entries
      ensures Valid()
      ensures entries == old(entries)[c := RowsWithin(old(Rows(c)), toSeq, None)]
      ensures count == |old(Rows(c))| - |Rows(c)|
    {
      var rows := Rows(c);
      RowsWithinOrdered(rows, toSeq, None);
      RowsWithinAtMost(rows, toSeq, None);
      var left := RowsWithin(rows, toSeq, None);
      count := |rows| - |left|;
      entries := entries[c := left];
    }

    /** The chains that have rows, each once. */
    method ChainHeads() returns (heads: seq<ChainId>)
      ensures Distinct(heads)
      ensures forall c :: c in heads <==> Rows(c) != []
    {
      heads := [];
      var left := entries.Keys;
      while left != {}
        invariant left <= entries.Keys
        invariant Distinct(heads)
        invariant forall c :: c in heads <==> c in entries && c !in left && entries[c] != []
        decreases left
      {
        var c :| c in left;
        left := left - {c};
        if entries[c] != [] {
          heads := heads + [c];
        }
      }
    }

    /** `verifyChain`: on an unchanging table the answer is about exactly the rows that
        paging reads, and a failure names the first of them at which the chain breaks. With
        distinct seqs these are all rows with a positive seq. */
    method VerifyChain(h: Hasher, c: ChainId, batch: nat) returns (r: VerificationResult)
      requires Valid() && batch >= 1
      ensures var read, anchor := Iterated(Rows(c), 0, None, batch), AnchorFor(Rows(c), Archives(c));
        && (r.valid <==> Intact(h, read, anchor))
        && (r.valid ==> r.firstBrokenSeq == None && r.checked == |read|)
        && (!r.valid ==>
              && 0 < r.checked <= |read|
              && r.firstBrokenSeq == Some(read[r.checked - 1].seqNo)
              && Intact(h, read[..r.checked - 1], anchor) && !Intact(h, read[..r.checked], anchor))
      ensures UniqueSeqs(Rows(c)) ==> Iterated(Rows(c), 0, None, batch) == RowsWithin(Rows(c), 0, None)
    {
      var firstSeq := FirstSeq(c);
      var anchor: Option<Anchor> := None;
      if firstSeq.Some? && firstSeq.value > 1 {
        anchor := FindAnchor(c, firstSeq.value - 1);
      }
      var yielded := IterateChainRange(c, 0, None, batch);
      r := Verify(h, yielded, anchor);
    }
  }

  lemma {:induction false} RowsWithinAtMost(rows: seq<Entry>, afterSeq: int, upToSeq: Option<int>)
    ensures |RowsWithin(rows, afterSeq, upToSeq)| <= |rows|
  {
    if rows != [] {
      RowsWithinAtMost(rows[1..], afterSeq, upToSeq);
    }
  }
}
