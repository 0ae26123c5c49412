/**
 The tamper-evident chain: what it means for stored entries to be intact, the loop
 that verifies them, and what a verified chain rules out.
 */
module AuditChain {
  import opened Prelude
  import opened Utf16
  import opened AuditHash

  /** The archive that covers the entries before a pruned boundary. */
  datatype Anchor = Anchor(toSeq: int, rootHash: Text)

  // ---- verification ----

  /** The previous hash `verify` expects, or `None` where the code has `undefined`. */
  function ExpectedPrevious(previous: Option<Entry>, e: Entry, anchor: Option<Anchor>): Option<Option<Text>> {
    match previous
    case Some(p) => Some(Some(p.hash))
    case None =>
      if e.seqNo == 1 then Some(None)
      else if anchor.Some? && anchor.value.toSeq == e.seqNo - 1 then Some(Some(anchor.value.rootHash))
      else None
  }

  predicate EntryOk(h: Hasher, previous: Option<Entry>, e: Entry, anchor: Option<Anchor>) {
    && ExpectedPrevious(previous, e, anchor) == Some(e.previousHash)
    && (previous.Some? ==> e.seqNo == previous.value.seqNo + 1)
    && h(e.draft, e.seqNo, e.previousHash) == e.hash
  }

  // ---- what an intact chain is ----

  ghost predicate StartsWell(e: Entry, anchor: Option<Anchor>) {
    if e.seqNo == 1 then e.previousHash == None
    else anchor.Some? && anchor.value.toSeq == e.seqNo - 1 && e.previousHash == Some(anchor.value.rootHash)
  }

  ghost predicate Rehashes(h: Hasher, e: Entry) {
    e.hash == h(e.draft, e.seqNo, e.previousHash)
  }

  ghost predicate LinkedAt(entries: seq<Entry>, i: int)
    requires 0 < i < |entries|
  {
    entries[i].seqNo == entries[i - 1].seqNo + 1 && entries[i].previousHash == Some(entries[i - 1].hash)
  }

  /** Every entry rehashes, follows its predecessor, and the first one starts the
      chain or continues from the anchor. */
  ghost predicate Intact(h: Hasher, entries: seq<Entry>, anchor: Option<Anchor>) {
    && (entries != [] ==> StartsWell(entries[0], anchor))
    && (forall i :: 0 <= i < |entries| ==> Rehashes(h, entries[i]))
    && (forall i :: 0 < i < |entries| ==> LinkedAt(entries, i))
  }

  datatype VerificationResult = VerificationResult(checked: nat, valid: bool, firstBrokenSeq: Option<int>)

  lemma {:induction false} IntactExtends(h: Hasher, entries: seq<Entry>, i: nat, anchor: Option<Anchor>)
    requires i < |entries|
    requires Intact(h, entries[..i], anchor)
    ensures Intact(h, entries[..i + 1], anchor) <==>
      EntryOk(h, if i == 0 then None else Some(entries[i - 1]), entries[i], anchor)
  {
    var shorter, longer := entries[..i], entries[..i + 1];
    assert longer == shorter + [entries[i]];
    assert forall k :: 0 < k < i ==> LinkedAt(shorter, k) ==> LinkedAt(longer, k);
    assert i > 0 ==> (LinkedAt(longer, i) <==>
      entries[i].seqNo == entries[i - 1].seqNo + 1 && entries[i].previousHash == Some(entries[i - 1].hash));
    assert Intact(h, longer, anchor) ==> Rehashes(h, longer[i]);
  }

  lemma {:induction false} IntactPrefix(h: Hasher, entries: seq<Entry>, i: nat, anchor: Option<Anchor>)
    requires i <= |entries| && Intact(h, entries, anchor)
    ensures Intact(h, entries[..i], anchor)
  {
    forall k | 0 < k < i ensures LinkedAt(entries[..i], k) {
      assert LinkedAt(entries, k);
    }
  }

  /** `verify` over the entries an iteration yields: valid exactly when the chain is
      intact; otherwise the reported seq is that of the first entry at which the
      chain stops being intact, and nothing after it was read. */
  method Verify(h: Hasher, entries: seq<Entry>, anchor: Option<Anchor>) returns (r: VerificationResult)
    ensures r.valid <==> Intact(h, entries, anchor)
    ensures r.valid <==> r.firstBrokenSeq == None
    ensures r.valid ==> r.checked == |entries|
    ensures !r.valid ==>
      && 0 < r.checked <= |entries|
      && r.firstBrokenSeq == Some(entries[r.checked - 1].seqNo)
      && Intact(h, entries[..r.checked - 1], anchor)
      && !Intact(h, entries[..r.checked], anchor)
  {
    var checked := 0;
    var previous: Option<Entry> := None;
    var firstBrokenSeq: Option<int> := None;
    assert entries[..0] == [];
    while checked < |entries|
      invariant 0 <= checked <= |entries|
      invariant previous == if checked == 0 then None else Some(entries[checked - 1])
      invariant firstBrokenSeq == None
      invariant Intact(h, entries[..checked], anchor)
    {
      var entry := entries[checked];
      IntactExtends(h, entries, checked, anchor);
      checked := checked + 1;
      var expectedPrevious := ExpectedPrevious(previous, entry, anchor);
      var linkageOk := expectedPrevious.Some? && entry.previousHash == expectedPrevious.value;
      var seqOk := previous == None || entry.seqNo == previous.value.seqNo + 1;
      var contentOk := h(entry.draft, entry.seqNo, entry.previousHash) == entry.hash;
      if !(linkageOk && seqOk && contentOk) {
        firstBrokenSeq := Some(entry.seqNo);
        if Intact(h, entries, anchor) {
          IntactPrefix(h, entries, checked, anchor);
        }
        break;
      }
      previous := Some(entry);
    }
    assert entries[..|entries|] == entries;
    r := VerificationResult(checked, firstBrokenSeq == None, firstBrokenSeq);
  }

  // ---- what a verified chain rules out ----

  lemma {:induction false} IntactSeqs(h: Hasher, entries: seq<Entry>, i: nat, anchor: Option<Anchor>)
    requires Intact(h, entries, anchor) && i < |entries|
    ensures entries[i].seqNo == entries[0].seqNo + i
  {
    if i > 0 {
      IntactSeqs(h, entries, i - 1, anchor);
      assert LinkedAt(entries, i);
    }
  }

  /** `x` and `y` agree in their hash and in everything it covers. */
  ghost predicate SameHashed(same: (Draft, Draft) -> bool, x: Entry, y: Entry) {
    x.hash == y.hash && x.seqNo == y.seqNo && x.previousHash == y.previousHash && same(x.draft, y.draft)
  }

  ghost predicate AllAcceptable(acceptable: Draft -> bool, entries: seq<Entry>) {
    forall i :: 0 <= i < |entries| ==> acceptable(entries[i].draft)
  }

  lemma {:induction false} PredecessorsAgree(a: seq<Entry>, i: nat, b: seq<Entry>, j: nat)
    requires 0 < i < |a| && 0 < j < |b|
    requires LinkedAt(a, i) && LinkedAt(b, j) && a[i].previousHash == b[j].previousHash
    ensures a[i - 1].hash == b[j - 1].hash
  {
  }

  lemma {:induction false} EntriesAgree(
      h: Hasher, acceptable: Draft -> bool, same: (Draft, Draft) -> bool, x: Entry, y: Entry)
    requires Binding(h, acceptable, same) && acceptable(x.draft) && acceptable(y.draft)
    requires Rehashes(h, x) && Rehashes(h, y) && x.hash == y.hash
    ensures SameHashed(same, x, y)
  {
  }

  /** Counting from the end, two intact chains with one tail hash agree entry by entry. */
  lemma {:induction false} AgreeFromEnd(
      h: Hasher, acceptable: Draft -> bool, same: (Draft, Draft) -> bool,
      a: seq<Entry>, b: seq<Entry>, anchorA: Option<Anchor>, anchorB: Option<Anchor>, k: nat)
    requires Binding(h, acceptable, same)
    requires AllAcceptable(acceptable, a) && AllAcceptable(acceptable, b)
    requires Intact(h, a, anchorA) && Intact(h, b, anchorB)
    requires k < |a| && k < |b| && a[|a| - 1].hash == b[|b| - 1].hash
    ensures SameHashed(same, a[|a| - 1 - k], b[|b| - 1 - k])
  {
    var i, j := |a| - 1 - k, |b| - 1 - k;
    if k > 0 {
      AgreeFromEnd(h, acceptable, same, a, b, anchorA, anchorB, k - 1);
      PredecessorsAgree(a, i + 1, b, j + 1);
    }
    EntriesAgree(h, acceptable, same, a[i], b[j]);
  }

  lemma {:induction false} SameTailSameLength(
      h: Hasher, acceptable: Draft -> bool, same: (Draft, Draft) -> bool,
      a: seq<Entry>, b: seq<Entry>, anchorA: Option<Anchor>, anchorB: Option<Anchor>)
    requires Binding(h, acceptable, same)
    requires AllAcceptable(acceptable, a) && AllAcceptable(acceptable, b)
    requires Intact(h, a, anchorA) && Intact(h, b, anchorB)
    requires a != [] && b != [] && a[0].seqNo == b[0].seqNo && a[|a| - 1].hash == b[|b| - 1].hash
    ensures |a| == |b|
  {
    AgreeFromEnd(h, acceptable, same, a, b, anchorA, anchorB, 0);
    IntactSeqs(h, a, |a| - 1, anchorA);
    IntactSeqs(h, b, |b| - 1, anchorB);
  }

  lemma {:induction false} TailHashFixes(
      h: Hasher, acceptable: Draft -> bool, same: (Draft, Draft) -> bool,
      a: seq<Entry>, b: seq<Entry>, anchorA: Option<Anchor>, anchorB: Option<Anchor>)
    requires Binding(h, acceptable, same)
    requires AllAcceptable(acceptable, a) && AllAcceptable(acceptable, b)
    requires Intact(h, a, anchorA) && Intact(h, b, anchorB)
    requires a != [] && b != [] && a[0].seqNo == b[0].seqNo && a[|a| - 1].hash == b[|b| - 1].hash
    ensures |a| == |b|
    ensures forall i :: 0 <= i < |a| ==> SameHashed(same, a[i], b[i])
  {
    SameTailSameLength(h, acceptable, same, a, b, anchorA, anchorB);
    forall i | 0 <= i < |a| ensures SameHashed(same, a[i], b[i]) {
      AgreeFromEnd(h, acceptable, same, a, b, anchorA, anchorB, |a| - 1 - i);
    }
  }

  ghost predicate WellFormedEntries(entries: seq<Entry>) {
    forall i :: 0 <= i < |entries| ==> WellFormedDraft(entries[i].draft)
  }

  /** Two chains that verify from one starting seq and end in one hash have the same
      length and agree entry by entry in every hashed field. */
  lemma {:induction false} TailHashFixesChain(
      c: Hashing, a: seq<Entry>, b: seq<Entry>, anchorA: Option<Anchor>, anchorB: Option<Anchor>)
    requires CollisionFree(c) && WellFormedEntries(a) && WellFormedEntries(b)
    requires Intact(HasherOf(c), a, anchorA) && Intact(HasherOf(c), b, anchorB)
    requires a != [] && b != [] && a[0].seqNo == b[0].seqNo && a[|a| - 1].hash == b[|b| - 1].hash
    ensures |a| == |b|
    ensures forall i :: 0 <= i < |a| ==>
      a[i].seqNo == b[i].seqNo && a[i].previousHash == b[i].previousHash && a[i].hash == b[i].hash
      && SameRecord(a[i].draft, b[i].draft)
  {
    var same := (d: Draft, d': Draft) => SameRecord(d, d');
    ComputeHashIsBinding(c);
    TailHashFixes(HasherOf(c), (d: Draft) => WellFormedDraft(d), same, a, b, anchorA, anchorB);
    assert forall i :: 0 <= i < |a| ==> SameHashed(same, a[i], b[i]);
  }

  /** So a chain that was changed in a hashed field, shortened, lengthened or reordered
      but kept its first seq and its tail hash no longer verifies, under any anchor. */
  lemma {:induction false} TamperingIsDetected(
      c: Hashing, stored: seq<Entry>, tampered: seq<Entry>, anchor: Option<Anchor>, anyAnchor: Option<Anchor>)
    requires CollisionFree(c) && WellFormedEntries(stored) && WellFormedEntries(tampered)
    requires Intact(HasherOf(c), stored, anchor)
    requires stored != [] && tampered != [] && stored[0].seqNo == tampered[0].seqNo
    requires stored[|stored| - 1].hash == tampered[|tampered| - 1].hash
    requires |stored| != |tampered|
      || exists i :: 0 <= i < |stored| && !SameRecord(stored[i].draft, tampered[i].draft)
    ensures !Intact(HasherOf(c), tampered, anyAnchor)
  {
    if Intact(HasherOf(c), tampered, anyAnchor) {
      TailHashFixesChain(c, stored, tampered, anchor, anyAnchor);
    }
  }
}
