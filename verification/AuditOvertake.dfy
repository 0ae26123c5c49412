/**
 The bound on attempts is met: a run of two processes, on a chain whose seq index binds,
 in which the second process stores a row between the read and the insert of each attempt
 of the first. After five of them the append of the first is given up. Together with the
 theorem that no append fails before five such rows this makes the number exact.
 */
module AuditOvertake {
  import opened Prelude
  import opened AuditHash
  import opened AuditChain
  import opened AuditRepository
  import opened AuditAppend

  /** The step leads from one configuration to the other. */
  ghost predicate Leads(h: Hasher, c: Config, step: Step, end: Config) {
    Enabled(c, step) && Next(h, true, c, step) == end
  }

  lemma {:induction false} RunCons(h: Hasher, c: Config, step: Step, next: Config, steps: seq<Step>, end: Config)
    requires Leads(h, c, step, next) && Runs(h, true, next, steps) && After(h, true, next, steps) == end
    ensures Runs(h, true, c, [step] + steps) && After(h, true, c, [step] + steps) == end
  {
    HeadTail(step, steps);
  }

  lemma {:induction false} RunThree(h: Hasher, c0: Config, a: Step, c1: Config, b: Step, c2: Config, d: Step, c3: Config)
    requires Leads(h, c0, a, c1) && Leads(h, c1, b, c2) && Leads(h, c2, d, c3)
    ensures Runs(h, true, c0, [a, b, d]) && After(h, true, c0, [a, b, d]) == c3
  {
    RunCons(h, c2, d, c3, [], c3);
    assert [d] + [] == [d] && [b] + [d] == [b, d] && [a] + [b, d] == [a, b, d];
    RunCons(h, c1, b, c2, [d], c3);
    RunCons(h, c0, a, c1, [b, d], c3);
  }

  lemma {:induction false} RunAppend(h: Hasher, c: Config, a: seq<Step>, b: seq<Step>)
    requires Runs(h, true, c, a) && Runs(h, true, After(h, true, c, a), b)
    ensures Runs(h, true, c, a + b) && After(h, true, c, a + b) == After(h, true, After(h, true, c, a), b)
    decreases |a|
  {
    if a == [] {
      assert a + b == b;
    } else {
      assert (a + b)[0] == a[0] && (a + b)[1..] == a[1..] + b;
      RunAppend(h, Next(h, true, c, a[0]), a[1..], b);
    }
  }

  /** The first process has begun an append and a second one does nothing. */
  ghost predicate Trying(c: Config, rows: seq<Entry>, x: Draft, attempt: nat, begunAt: nat) {
    && c.rows == rows && |c.processes| == |c.submitted| == 2
    && c.processes == [Process([], Reading(x, attempt, begunAt)), Process([], Idle)]
  }

  /** One attempt of the first process, with an append of the second inside it. */
  function Overtake(rows: seq<Entry>, y: Draft): seq<Step> {
    [ReadTail(0, Last(rows)), Submit(1, y), Begin(1)] + [ReadTail(1, Last(rows)), Insert(1, [], 0), Insert(0, [], 0)]
  }

  function Reads(h: Hasher, rows: seq<Entry>, draft: Draft, attempt: nat, begunAt: nat): Active {
    var e := Raced(h, rows, draft);
    Inserting(draft, attempt, begunAt, e.seqNo, e.previousHash, e.hash)
  }

  lemma {:induction false} OvertakeBegins(
      h: Hasher, c: Config, rows: seq<Entry>, x: Draft, y: Draft, attempt: nat, begunAt: nat, anchor: Option<Anchor>)
      returns (mid: Config)
    requires Intact(h, rows, anchor) && Trying(c, rows, x, attempt, begunAt)
    ensures var steps := [ReadTail(0, Last(rows)), Submit(1, y), Begin(1)];
      Runs(h, true, c, steps) && After(h, true, c, steps) == mid
    ensures mid.rows == rows && mid.log == c.log && |mid.submitted| == 2
    ensures mid.processes == [Process([], Reads(h, rows, x, attempt, begunAt)), Process([], Reading(y, 1, |rows|))]
  {
    LastIsTail(h, rows, anchor);
    var c1 := Next(h, true, c, ReadTail(0, Last(rows)));
    assert c1.processes == [Process([], Reads(h, rows, x, attempt, begunAt)), Process([], Idle)];
    var c2 := Next(h, true, c1, Submit(1, y));
    assert [] + [y] == [y];
    assert c2.processes == [Process([], Reads(h, rows, x, attempt, begunAt)), Process([y], Idle)];
    mid := Next(h, true, c2, Begin(1));
    assert [y][1..] == [];
    RunThree(h, c, ReadTail(0, Last(rows)), c1, Submit(1, y), c2, Begin(1), mid);
  }

  lemma {:induction false} NextIsFree(h: Hasher, rows: seq<Entry>, anchor: Option<Anchor>, draft: Draft)
    requires SeqBinding(h) && Intact(h, rows, anchor)
    ensures !Refused(rows, true, NextSeq(rows), Raced(h, rows, draft).hash)
  {
    IntactIsContiguous(h, rows, anchor);
    RacedIsFresh(h, rows, anchor, draft);
  }

  lemma {:induction false} OvertakeEnds(
      h: Hasher, mid: Config, rows: seq<Entry>, x: Draft, y: Draft, attempt: nat, begunAt: nat, anchor: Option<Anchor>)
      returns (end: Config)
    requires SeqBinding(h) && Intact(h, rows, anchor) && 1 <= attempt <= 5
    requires mid.rows == rows && |mid.submitted| == 2
    requires mid.processes == [Process([], Reads(h, rows, x, attempt, begunAt)), Process([], Reading(y, 1, |rows|))]
    ensures var steps := [ReadTail(1, Last(rows)), Insert(1, [], 0), Insert(0, [], 0)];
      Runs(h, true, mid, steps) && After(h, true, mid, steps) == end
    ensures attempt < 5 ==> Trying(end, rows + [Raced(h, rows, y)], x, attempt + 1, begunAt)
    ensures attempt == 5 ==> end.log == mid.log + [Stored(1, Raced(h, rows, y))] + [Failed(0, x, begunAt, |rows| + 1)]
  {
    LastIsTail(h, rows, anchor);
    NextIsFree(h, rows, anchor, y);
    var e := Raced(h, rows, y);
    var c1 := Next(h, true, mid, ReadTail(1, Last(rows)));
    assert c1.processes == [Process([], Reads(h, rows, x, attempt, begunAt)), Process([], Reads(h, rows, y, 1, |rows|))];
    var c2 := Next(h, true, c1, Insert(1, [], 0));
    assert c2.rows == rows + [e] && c2.log == mid.log + [Stored(1, e)];
    assert c2.processes == [Process([], Reads(h, rows, x, attempt, begunAt)), Process([], Idle)];
    assert e in c2.rows && e.seqNo == Raced(h, rows, x).seqNo;
    end := Next(h, true, c2, Insert(0, [], 0));
    RunThree(h, mid, ReadTail(1, Last(rows)), c1, Insert(1, [], 0), c2, Insert(0, [], 0), end);
  }

  function Overtakes(h: Hasher, rows: seq<Entry>, y: Draft, times: nat): seq<Step>
    decreases times
  {
    if times == 0 then [] else Overtake(rows, y) + Overtakes(h, rows + [Raced(h, rows, y)], y, times - 1)
  }

  lemma {:induction false} Overtaken(
      h: Hasher, c: Config, rows: seq<Entry>, x: Draft, y: Draft, attempt: nat, begunAt: nat, anchor: Option<Anchor>)
      returns (end: Config)
    requires SeqBinding(h) && Intact(h, rows, anchor) && 1 <= attempt <= 5 && Trying(c, rows, x, attempt, begunAt)
    ensures Runs(h, true, c, Overtake(rows, y)) && After(h, true, c, Overtake(rows, y)) == end
    ensures attempt < 5 ==> Trying(end, rows + [Raced(h, rows, y)], x, attempt + 1, begunAt)
    ensures attempt == 5 ==> Failed(0, x, begunAt, |rows| + 1) in end.log
  {
    var mid := OvertakeBegins(h, c, rows, x, y, attempt, begunAt, anchor);
    end := OvertakeEnds(h, mid, rows, x, y, attempt, begunAt, anchor);
    RunAppend(h, c, [ReadTail(0, Last(rows)), Submit(1, y), Begin(1)],
              [ReadTail(1, Last(rows)), Insert(1, [], 0), Insert(0, [], 0)]);
  }

  lemma {:induction false} OvertakesNext(h: Hasher, rows: seq<Entry>, y: Draft, times: nat)
    requires times > 0
    ensures Overtakes(h, rows, y, times) == Overtake(rows, y) + Overtakes(h, rows + [Raced(h, rows, y)], y, times - 1)
  {
  }

  /** The steps can be taken, and the outcome is on record after them. */
  ghost predicate Reaches(h: Hasher, c: Config, steps: seq<Step>, o: Outcome) {
    Runs(h, true, c, steps) && o in After(h, true, c, steps).log
  }

  lemma {:induction false} OvertakenAgain(
      h: Hasher, c: Config, end: Config, rows: seq<Entry>, y: Draft, times: nat, o: Outcome)
    requires Runs(h, true, c, Overtake(rows, y)) && After(h, true, c, Overtake(rows, y)) == end
    requires Reaches(h, end, Overtakes(h, rows + [Raced(h, rows, y)], y, times), o)
    ensures Reaches(h, c, Overtakes(h, rows, y, times + 1), o)
  {
    OvertakesNext(h, rows, y, times + 1);
    RunAppend(h, c, Overtake(rows, y), Overtakes(h, rows + [Raced(h, rows, y)], y, times));
  }

  lemma {:induction false} OvertakenFails(
      h: Hasher, c: Config, rows: seq<Entry>, x: Draft, y: Draft, begunAt: nat, times: nat, anchor: Option<Anchor>)
    requires SeqBinding(h) && Intact(h, rows, anchor) && times < 5 && Trying(c, rows, x, 5 - times, begunAt)
    ensures Reaches(h, c, Overtakes(h, rows, y, times + 1), Failed(0, x, begunAt, |rows| + times + 1))
    decreases times
  {
    var end := Overtaken(h, c, rows, x, y, 5 - times, begunAt, anchor);
    if times > 0 {
      NextKeepsIntact(h, rows, anchor, Raced(h, rows, y));
      OvertakenFails(h, end, rows + [Raced(h, rows, y)], x, y, begunAt, times - 1, anchor);
    } else {
      assert Overtakes(h, rows + [Raced(h, rows, y)], y, 0) == [];
    }
    OvertakenAgain(h, c, end, rows, y, times, Failed(0, x, begunAt, |rows| + 1 + times));
  }

  lemma {:induction false} StartsTrying(h: Hasher, rows: seq<Entry>, x: Draft) returns (c: Config)
    ensures Runs(h, true, Fresh(rows, 2), [Submit(0, x), Begin(0)])
    ensures After(h, true, Fresh(rows, 2), [Submit(0, x), Begin(0)]) == c && Trying(c, rows, x, 1, |rows|)
  {
    var c0 := Fresh(rows, 2);
    var c1 := Next(h, true, c0, Submit(0, x));
    assert [] + [x] == [x];
    assert c1.processes == [Process([x], Idle), Process([], Idle)];
    c := Next(h, true, c1, Begin(0));
    assert [x][1..] == [];
    RunCons(h, c1, Begin(0), c, [], c);
    assert [Begin(0)] + [] == [Begin(0)] && [Submit(0, x)] + [Begin(0)] == [Submit(0, x), Begin(0)];
    RunCons(h, c0, Submit(0, x), c1, [Begin(0)], c);
  }

  /** Five rows are enough: an append that another process overtakes five times fails, even
      where the seq index binds. */
  lemma {:induction false} FiveRowsCanFail(h: Hasher, rows: seq<Entry>, x: Draft, y: Draft, anchor: Option<Anchor>)
    requires SeqBinding(h) && Intact(h, rows, anchor)
    ensures var steps := [Submit(0, x), Begin(0)] + Overtakes(h, rows, y, 5);
      Reaches(h, Fresh(rows, 2), steps, Failed(0, x, |rows|, |rows| + 5))
  {
    var c := StartsTrying(h, rows, x);
    OvertakenFails(h, c, rows, x, y, |rows|, 4, anchor);
    RunAppend(h, Fresh(rows, 2), [Submit(0, x), Begin(0)], Overtakes(h, rows, y, 5));
  }
}
