/**
 One notification delivery: its row, its job with retries, and cancellations, between any
 two steps. Each database or provider call is one step. The theorems hold for every
 provider answer and every interleaving.
 */
module Delivery {
  import opened Prelude

  datatype Status = PENDING | SENT | FAILED | DEAD | CANCELLED

  /** What the provider answers; a provider that throws counts as transient. */
  datatype Answer = Okay | Permanent | Transient

  /** How looking up the notification, its provider and its text turns out. */
  datatype Prepared = Missing | RenderFails | Rendered

  /** Where the job is: waiting in the queue, at a step of an attempt, after an attempt that
      threw, at a step of the handler for exhausted jobs, or over. */
  datatype Phase =
    | Waiting
    | Begun
    | Loaded(recorded: nat)
    | Ready
    | Answered(answer: Answer)
    | Dying(recorded: nat)
    | Threw
    | Exhausting
    | Ending(recorded: nat)
    | Finished
    | Removed

  /** The row, the job, the cancellation calls that have found the row pending and not yet
      written (`found`) or not yet pulled the job (`pulls`), and what has been done: provider
      calls, successes, failed renders, and the failed renders there had been at the last
      call. */
  datatype State = State(
    maxAttempts: nat, status: Status, attempts: nat, phase: Phase, attemptsMade: nat, found: nat, pulls: nat,
    calls: nat, successes: nat, renderFailures: nat, failuresAtCall: nat)

  datatype Event =
    | Pick
    | Load
    | Prepare(prepared: Prepared)
    | Send(answer: Answer)
    | Record(emitted: bool)
    | Settle
    | Exhaust
    | Bury
    | Find
    | Update
    | Pull

  function Init(maxAttempts: nat): State {
    State(maxAttempts, PENDING, 0, Waiting, 0, 0, 0, 0, 0, 0, 0)
  }

  predicate Skips(status: Status) {
    status == CANCELLED || status == SENT
  }

  /** `markResult` and `markAttempt`: both overwrite the status whatever it is. */
  function Written(s: State, status: Status, attempts: nat, phase: Phase): State {
    s.(status := status, attempts := attempts, phase := phase)
  }

  /** One step; an event that is not due changes nothing. */
  function Step(s: State, e: Event): State {
    match e
    case Pick => if s.phase == Waiting then s.(phase := Begun) else s
    case Load =>
      if s.phase == Begun then s.(phase := if Skips(s.status) then Finished else Loaded(s.attempts)) else s
    case Prepare(prepared) =>
      if !s.phase.Loaded? then s
      else (match prepared
            case Missing => s.(phase := Dying(s.phase.recorded))
            case RenderFails => s.(phase := Threw, renderFailures := s.renderFailures + 1)
            case Rendered => s.(phase := Ready))
    case Send(answer) =>
      if s.phase != Ready then s
      else s.(phase := Answered(answer), calls := s.calls + 1, failuresAtCall := s.renderFailures,
              successes := s.successes + if answer == Okay then 1 else 0)
    case Record(emitted) =>
      (match s.phase
       case Dying(recorded) => Written(s, DEAD, recorded, Finished)
       case Answered(answer) =>
         var attemptNo := s.attemptsMade + 1;
         (match answer
          case Okay => Written(s, SENT, attemptNo, if emitted then Finished else Threw)
          case Permanent => Written(s, DEAD, attemptNo, Finished)
          case Transient => Written(s, FAILED, attemptNo, Threw))
       case _ => s)
    case Settle =>
      if s.phase != Threw then s
      else s.(attemptsMade := s.attemptsMade + 1, phase := if s.attemptsMade + 1 >= s.maxAttempts then Exhausting else Waiting)
    case Exhaust =>
      if s.phase == Exhausting then s.(phase := if Skips(s.status) then Finished else Ending(s.attempts)) else s
    case Bury => if s.phase.Ending? then Written(s, DEAD, s.phase.recorded, Finished) else s
    case Find => if s.status == PENDING then s.(found := s.found + 1) else s
    case Update =>
      if s.found == 0 then s
      else s.(found := s.found - 1, pulls := s.pulls + 1, status := if s.status == PENDING then CANCELLED else s.status)
    case Pull =>
      if s.pulls == 0 then s
      else s.(pulls := s.pulls - 1, phase := if s.phase == Waiting then Removed else s.phase)
  }

  function Run(s: State, events: seq<Event>): State
    decreases |events|
  {
    if events == [] then s else Run(Step(s, events[0]), events[1..])
  }

  predicate Over(s: State) {
    s.phase == Finished || s.phase == Removed
  }

  // ---- the invariant ----

  /** An attempt has called the provider, or failed to render, but not yet been counted. */
  predicate Uncounted(p: Phase) {
    p.Answered? || p.Threw?
  }

  /** Attempts counted so far and provider calls agree, render failures included. */
  predicate Counts(s: State) {
    && (!Over(s) ==> s.attemptsMade + (if Uncounted(s.phase) then 1 else 0) == s.calls + s.renderFailures)
    && (if s.phase.Exhausting? || s.phase.Ending? then s.attemptsMade == s.maxAttempts
        else if Over(s) then s.attemptsMade <= s.maxAttempts
        else s.attemptsMade < s.maxAttempts)
    && s.calls <= s.maxAttempts
    && s.failuresAtCall <= s.renderFailures
  }

  /** The number recorded: exact whenever no call is waiting to be recorded. */
  predicate Recorded(s: State) {
    && (!s.phase.Answered? ==> s.attempts == s.calls + s.failuresAtCall)
    && (s.phase.Answered? ==> s.failuresAtCall == s.renderFailures)
    && (s.phase.Loaded? ==> s.phase.recorded == s.attempts)
    && (s.phase.Dying? ==> s.phase.recorded == s.attempts)
    && (s.phase.Ending? ==> s.phase.recorded == s.attempts)
  }

  /** A success is being recorded or has been; a sent row is past every write. */
  predicate Sends(s: State) {
    && s.successes == (if s.status == SENT || s.phase == Answered(Okay) then 1 else 0)
    && (s.status == SENT ==>
          s.phase.Threw? || s.phase.Waiting? || s.phase.Begun? || s.phase.Exhausting? || Over(s))
  }

  predicate Ends(s: State) {
    && (s.phase == Finished ==> s.status == SENT || s.status == DEAD || s.status == CANCELLED)
    && (s.phase == Removed ==> s.status == SENT || s.status == CANCELLED || s.status == FAILED)
    && (s.status == DEAD ==> s.phase == Finished)
    && (s.pulls > 0 ==> s.status != PENDING)
  }

  predicate Inv(s: State) {
    Counts(s) && Recorded(s) && Sends(s) && Ends(s)
  }

  lemma {:induction false} StepKeepsInv(s: State, e: Event)
    requires Inv(s)
    ensures Inv(Step(s, e))
  {
  }

  lemma {:induction false} RunKeepsInv(s: State, events: seq<Event>)
    requires Inv(s)
    ensures Inv(Run(s, events)) && Run(s, events).maxAttempts == s.maxAttempts
    decreases |events|
  {
    if events != [] {
      StepKeepsInv(s, events[0]);
      RunKeepsInv(Step(s, events[0]), events[1..]);
    }
  }

  // ---- the theorems ----

  /** In every run a delivery calls its provider at most `maxAttempts` times, at most one
      call succeeds, and once the job is over the row records the calls made plus the
      renders that failed before the last call. */
  lemma {:induction false} EveryRunIsBounded(maxAttempts: nat, events: seq<Event>)
    requires maxAttempts > 0
    ensures var s := Run(Init(maxAttempts), events);
            && s.calls <= maxAttempts
            && s.successes <= 1
            && (s.status == SENT ==> s.successes == 1)
            && (Over(s) ==> s.attempts == s.calls + s.failuresAtCall)
            && (s.renderFailures == 0 && Over(s) ==> s.attempts == s.calls)
  {
    RunKeepsInv(Init(maxAttempts), events);
  }

  /** Once sent, always sent. */
  lemma {:induction false} SentStays(s: State, events: seq<Event>)
    requires Inv(s) && s.status == SENT
    ensures Run(s, events).status == SENT && Run(s, events).calls == s.calls
    decreases |events|
  {
    if events != [] {
      StepKeepsInv(s, events[0]);
      SentStays(Step(s, events[0]), events[1..]);
    }
  }

  /** The attempt, or the handler for exhausted jobs, has read the row and will write it. */
  predicate InFlight(p: Phase) {
    p.Loaded? || p.Ready? || p.Answered? || p.Dying? || p.Ending?
  }

  lemma {:induction false} CancelledStays(s: State, events: seq<Event>)
    requires s.status == CANCELLED && !InFlight(s.phase)
    ensures Run(s, events).status == CANCELLED && !InFlight(Run(s, events).phase)
    decreases |events|
  {
    if events != [] {
      CancelledStays(Step(s, events[0]), events[1..]);
    }
  }

  lemma {:induction false} RunOne(s: State, e: Event)
    ensures Run(s, [e]) == Step(s, e)
  {
    assert [e][1..] == [];
  }

  lemma {:induction false} RunTwo(s: State, e: Event, f: Event)
    ensures Run(s, [e, f]) == Step(Step(s, e), f)
  {
    assert [e, f][1..] == [f];
    RunOne(Step(s, e), f);
  }

  lemma {:induction false} RunThree(s: State, e: Event, f: Event, g: Event)
    ensures Run(s, [e, f, g]) == Step(Step(Step(s, e), f), g)
  {
    assert [e, f, g][1..] == [f, g];
    RunTwo(Step(s, e), f, g);
  }

  /** A cancelled delivery stays cancelled, whatever happens next, exactly when nothing was
      in flight at the cancellation. */
  lemma {:induction false} CancelHoldsExactlyWhen(s: State)
    requires s.status == CANCELLED
    ensures (forall events :: Run(s, events).status == CANCELLED) <==> !InFlight(s.phase)
  {
    if InFlight(s.phase) {
      var r := Record(true);
      match s.phase
      case Loaded(_) =>
        RunThree(s, Prepare(Rendered), Send(Transient), r);
        assert Run(s, [Prepare(Rendered), Send(Transient), r]).status == FAILED;
      case Ready =>
        RunTwo(s, Send(Transient), r);
        assert Run(s, [Send(Transient), r]).status == FAILED;
      case Answered(_) =>
        RunOne(s, r);
        assert Run(s, [r]).status != CANCELLED;
      case Dying(_) =>
        RunOne(s, r);
        assert Run(s, [r]).status == DEAD;
      case Ending(_) =>
        RunOne(s, Bury);
        assert Run(s, [Bury]).status == DEAD;
    } else {
      forall events ensures Run(s, events).status == CANCELLED {
        CancelledStays(s, events);
      }
    }
  }

  // ---- how a run ends ----

  predicate Final(status: Status) {
    status == SENT || status == DEAD || status == CANCELLED
  }

  /** Every run from here that is over ends sent, dead or cancelled. */
  ghost predicate EndsFinally(s: State) {
    forall events :: Over(Run(s, events)) ==> Final(Run(s, events).status)
  }

  /** The job can come back to the queue with its row failed. */
  predicate CanReturnFailed(s: State) {
    var again := s.attemptsMade + 1 < s.maxAttempts;
    match s.phase
    case Waiting => s.status == FAILED || (s.status == PENDING && again)
    case Begun => (s.status == FAILED || s.status == PENDING) && again
    case Loaded(_) => again
    case Ready => again
    case Answered(answer) => answer == Transient && again
    case Threw => (s.status == FAILED && again) || (s.status == PENDING && s.attemptsMade + 2 < s.maxAttempts)
    case _ => false
  }

  /** The row is left failed for good: its job is gone. */
  predicate Stranded(s: State) {
    s.phase == Removed && s.status == FAILED
  }

  /** It is, or a cancellation call that found the row pending, or still can, may pull the
      job after the row has failed. */
  predicate CanStrand(s: State) {
    Stranded(s) || ((s.found + s.pulls > 0 || s.status == PENDING) && CanReturnFailed(s))
  }

  lemma {:induction false} StaysSafe(s: State, e: Event)
    requires Inv(s) && !CanStrand(s)
    ensures !CanStrand(Step(s, e))
  {
  }

  lemma {:induction false} SafeRunEnds(s: State, events: seq<Event>)
    requires Inv(s) && !CanStrand(s)
    ensures Over(Run(s, events)) ==> Final(Run(s, events).status)
    decreases |events|
  {
    if events != [] {
      StepKeepsInv(s, events[0]);
      StaysSafe(s, events[0]);
      SafeRunEnds(Step(s, events[0]), events[1..]);
    }
  }

  /** The next event on the way to a stranded row. */
  function Astray(s: State): Event {
    if s.found + s.pulls == 0 then Find
    else
      match s.phase
      case Waiting => if s.status == PENDING then Pick else if s.pulls > 0 then Pull else Update
      case Begun => Load
      case Loaded(_) => Prepare(Rendered)
      case Ready => Send(Transient)
      case Answered(_) => Record(true)
      case _ => Settle
  }

  /** What is left of a cancellation before it can pull the job. */
  function Unpulled(s: State): nat {
    if s.pulls > 0 then 0 else if s.found > 0 then 1 else 2
  }

  lemma {:induction false} AstrayGetsCloser(s: State)
    requires Inv(s) && CanStrand(s) && !Stranded(s)
    ensures var next := Step(s, Astray(s));
      && Inv(next) && CanStrand(next)
      && (Left(next) < Left(s) || (Left(next) == Left(s) && Unpulled(next) < Unpulled(s)))
    ensures Left(s) >= 0
  {
    StepKeepsInv(s, Astray(s));
    RunsComeToAnEnd(s, Astray(s));
  }

  lemma {:induction false} StrandsInTheEnd(s: State) returns (events: seq<Event>)
    requires Inv(s) && CanStrand(s)
    ensures Stranded(Run(s, events))
    decreases Left(s), Unpulled(s)
  {
    events := [];
    assert Run(s, []) == s;
    if !Stranded(s) {
      AstrayGetsCloser(s);
      var rest := StrandsInTheEnd(Step(s, Astray(s)));
      events := [Astray(s)] + rest;
      HeadTail(Astray(s), rest);
      assert Run(s, events) == Run(Step(s, Astray(s)), rest);
    }
  }

  /** From any state that can be reached, every run that is over ends sent, dead or
      cancelled exactly when no cancellation call found the row pending, or still can, that
      may pull the job after the row has failed. */
  lemma {:induction false} EndsExactlyWhen(s: State)
    requires Inv(s)
    ensures EndsFinally(s) <==> !CanStrand(s)
  {
    if CanStrand(s) {
      var events := StrandsInTheEnd(s);
      assert Over(Run(s, events)) && !Final(Run(s, events).status);
      assert !EndsFinally(s);
    } else {
      forall events ensures Over(Run(s, events)) ==> Final(Run(s, events).status) {
        SafeRunEnds(s, events);
      }
      assert EndsFinally(s);
    }
  }

  /** A delivery is sure to end so from the start exactly when it has a single attempt. */
  lemma {:induction false} EveryRunEndsExactlyWhen(maxAttempts: nat)
    requires maxAttempts > 0
    ensures EndsFinally(Init(maxAttempts)) <==> maxAttempts == 1
  {
    EndsExactlyWhen(Init(maxAttempts));
  }

  /** When a cancellation writes a row that is still pending, the delivery is sure to end so
      exactly when no attempt is between reading the row and recording a transient failure
      that leaves it a further attempt. */
  lemma {:induction false} CancellationEndsExactlyWhen(s: State)
    requires Inv(s) && s.status == PENDING && s.found > 0
    ensures EndsFinally(Step(s, Update))
       <==> !((s.phase.Loaded? || s.phase.Ready? || s.phase == Answered(Transient)) && s.attemptsMade + 1 < s.maxAttempts)
  {
    StepKeepsInv(s, Update);
    EndsExactlyWhen(Step(s, Update));
  }

  /** At no state of the run is anything in flight while a cancellation that found the row
      has yet to write it. */
  predicate QuietCancels(s: State, events: seq<Event>)
    decreases |events|
  {
    (s.found > 0 ==> !InFlight(s.phase)) && (events == [] || QuietCancels(Step(s, events[0]), events[1..]))
  }

  lemma {:induction false} QuietRunEnds(s: State, events: seq<Event>)
    requires Inv(s) && QuietCancels(s, events)
    requires s.found > 0 ==> s.status == PENDING || s.status == CANCELLED
    requires s.pulls > 0 || s.phase == Removed ==> s.status == CANCELLED && !InFlight(s.phase)
    ensures Over(Run(s, events)) ==> Final(Run(s, events).status)
    decreases |events|
  {
    if events != [] {
      StepKeepsInv(s, events[0]);
      QuietRunEnds(Step(s, events[0]), events[1..]);
    }
  }

  /** If nothing is in flight from the moment a cancellation reads the row until it has
      written it, every run that is over ends sent, dead or cancelled. */
  lemma {:induction false} EveryQuietRunEnds(maxAttempts: nat, events: seq<Event>)
    requires maxAttempts > 0 && QuietCancels(Init(maxAttempts), events)
    ensures var s := Run(Init(maxAttempts), events); Over(s) ==> Final(s.status)
  {
    QuietRunEnds(Init(maxAttempts), events);
  }

  lemma {:induction false} RunNine(s: State, a: seq<Event>, b: seq<Event>, c: seq<Event>)
    requires |a| == |b| == |c| == 3
    ensures Run(s, a + (b + c))
         == Step(Step(Step(Step(Step(Step(Step(Step(Step(s, a[0]), a[1]), a[2]), b[0]), b[1]), b[2]), c[0]), c[1]), c[2])
  {
    RunAppend(s, a, b + c);
    RunAppend(Run(s, a), b, c);
    assert a == [a[0], a[1], a[2]] && b == [b[0], b[1], b[2]] && c == [c[0], c[1], c[2]];
    RunThree(s, a[0], a[1], a[2]);
    RunThree(Run(s, a), b[0], b[1], b[2]);
    RunThree(Run(Run(s, a), b), c[0], c[1], c[2]);
  }

  /** A whole attempt between a cancellation's read and its write: nothing is in flight at
      either, and the delivery is left failed for good, with a call made and no job. */
  lemma {:induction false} CancelCanStrand(maxAttempts: nat)
    requires maxAttempts > 1
    ensures var s := Run(Init(maxAttempts), [Find, Pick, Load]
                       + ([Prepare(Rendered), Send(Transient), Record(true)] + [Settle, Update, Pull]));
            Stranded(s) && s.calls == 1
  {
    RunNine(Init(maxAttempts), [Find, Pick, Load],
            [Prepare(Rendered), Send(Transient), Record(true)], [Settle, Update, Pull]);
  }

  /** A render that fails before a call is counted with it: the row of a delivery that was
      sent with one call records two attempts. */
  lemma {:induction false} AttemptsCanExceedCalls(maxAttempts: nat)
    requires maxAttempts > 1
    ensures var s := Run(Init(maxAttempts), [Pick, Load, Prepare(RenderFails)]
                       + ([Settle, Pick, Load] + [Prepare(Rendered), Send(Okay), Record(true)]));
            s.phase == Finished && s.status == SENT && s.calls == 1 && s.attempts == 2
  {
    RunNine(Init(maxAttempts), [Pick, Load, Prepare(RenderFails)],
            [Settle, Pick, Load], [Prepare(Rendered), Send(Okay), Record(true)]);
  }

  lemma {:induction false} RunAppend(s: State, a: seq<Event>, b: seq<Event>)
    ensures Run(s, a + b) == Run(Run(s, a), b)
    decreases |a|
  {
    if a == [] {
      assert a + b == b;
    } else {
      assert (a + b)[0] == a[0] && (a + b)[1..] == a[1..] + b;
      RunAppend(Step(s, a[0]), a[1..], b);
    }
  }

  // ---- what a status means ----

  /** The status, and what is about to be recorded, have their reason among the events. */
  ghost predicate Deserved(s: State, events: seq<Event>) {
    && (s.status == SENT ==> Send(Okay) in events)
    && (s.status == FAILED ==> Send(Transient) in events)
    && (s.status == CANCELLED ==> Update in events)
    && (s.status == DEAD ==>
          Send(Permanent) in events || Prepare(Missing) in events || s.attemptsMade == s.maxAttempts)
    && (s.phase.Answered? ==> Send(s.phase.answer) in events)
    && (s.phase.Dying? ==> Prepare(Missing) in events)
    && (s.phase.Exhausting? || s.phase.Ending? ==> s.attemptsMade == s.maxAttempts)
  }

  lemma {:induction false} StepDeserved(s: State, events: seq<Event>, e: Event)
    requires Inv(s) && Deserved(s, events)
    ensures Deserved(Step(s, e), events + [e])
  {
    assert forall f :: f in events ==> f in events + [e];
    assert e in events + [e];
  }

  lemma {:induction false} RunDeserved(maxAttempts: nat, events: seq<Event>)
    requires maxAttempts > 0
    ensures Deserved(Run(Init(maxAttempts), events), events)
  {
    if events != [] {
      var front, e := events[..|events| - 1], events[|events| - 1];
      assert events == front + [e];
      RunDeserved(maxAttempts, front);
      RunKeepsInv(Init(maxAttempts), front);
      StepDeserved(Run(Init(maxAttempts), front), front, e);
      RunAppend(Init(maxAttempts), front, [e]);
      RunOne(Run(Init(maxAttempts), front), e);
    }
  }

  /** In every run a delivery is sent only if the provider accepted it, failed only if it
      answered that it may be tried again, cancelled only if a cancellation wrote the row, and
      dead only if the provider refused it for good, the notification or its provider was
      missing, or every attempt was made. */
  lemma {:induction false} StatusIsDeserved(maxAttempts: nat, events: seq<Event>)
    requires maxAttempts > 0
    ensures var s := Run(Init(maxAttempts), events);
      match s.status
      case PENDING => true
      case SENT => Send(Okay) in events
      case FAILED => Send(Transient) in events
      case CANCELLED => Update in events
      case DEAD => Send(Permanent) in events || Prepare(Missing) in events || s.attemptsMade == maxAttempts
  {
    RunDeserved(maxAttempts, events);
    RunKeepsInv(Init(maxAttempts), events);
  }

  /** And what an answer does when it is recorded, whatever the row says by then. */
  lemma {:induction false} AnswerIsRecorded(s: State, answer: Answer, emitted: bool)
    requires s.phase == Answered(answer)
    ensures var next := Step(s, Record(emitted));
      && next.attempts == s.attemptsMade + 1
      && (answer == Okay ==> next.status == SENT && next.phase == if emitted then Finished else Threw)
      && (answer == Permanent ==> next.status == DEAD && next.phase == Finished)
      && (answer == Transient ==> next.status == FAILED && next.phase == Threw)
  {
  }

  // ---- every run gets there ----

  function Rank(p: Phase): nat {
    match p
    case Waiting => 6
    case Begun => 5
    case Loaded(_) => 4
    case Ready => 3
    case Answered(_) => 2
    case Dying(_) => 2
    case Threw => 1
    case Exhausting => 2
    case Ending(_) => 1
    case Finished => 0
    case Removed => 0
  }

  /** Steps of the job that can still be taken, at most. */
  function Left(s: State): int {
    7 * (s.maxAttempts - s.attemptsMade) + Rank(s.phase)
  }

  /** The event that is due for the job. */
  function Due(s: State): Event {
    match s.phase
    case Waiting => Pick
    case Begun => Load
    case Loaded(_) => Prepare(Rendered)
    case Ready => Send(Okay)
    case Answered(_) => Record(true)
    case Dying(_) => Record(true)
    case Threw => Settle
    case Exhausting => Exhaust
    case Ending(_) => Bury
    case _ => Pull
  }

  /** Until the job is over some step is due, and every step that does anything to the job
      leaves fewer to take. */
  lemma {:induction false} RunsComeToAnEnd(s: State, e: Event)
    requires Inv(s)
    ensures !Over(s) ==> Step(s, Due(s)).phase != s.phase
    ensures Left(s) >= 0
    ensures if Step(s, e).phase != s.phase then Left(Step(s, e)) < Left(s) else Left(Step(s, e)) == Left(s)
  {
  }

  /** How many events of the run move the job. */
  function Moves(s: State, events: seq<Event>): nat
    decreases |events|
  {
    if events == [] then 0
    else (if Step(s, events[0]).phase != s.phase then 1 else 0) + Moves(Step(s, events[0]), events[1..])
  }

  lemma {:induction false} MovesAreLeft(s: State, events: seq<Event>)
    requires Inv(s)
    ensures Moves(s, events) + Left(Run(s, events)) <= Left(s)
    decreases |events|
  {
    if events != [] {
      StepKeepsInv(s, events[0]);
      RunsComeToAnEnd(s, events[0]);
      MovesAreLeft(Step(s, events[0]), events[1..]);
    }
  }

  /** No run moves the job more than `7 * maxAttempts + 6` times, however long it is, and a
      run that is not over can be moved on. */
  lemma {:induction false} MovesAreBounded(maxAttempts: nat, events: seq<Event>)
    requires maxAttempts > 0
    ensures Moves(Init(maxAttempts), events) <= 7 * maxAttempts + 6
    ensures var s := Run(Init(maxAttempts), events); !Over(s) ==> Step(s, Due(s)).phase != s.phase
  {
    MovesAreLeft(Init(maxAttempts), events);
    RunKeepsInv(Init(maxAttempts), events);
    RunsComeToAnEnd(Run(Init(maxAttempts), events), Pick);
  }

  // ---- the worker ----

  function StatusFor(answer: Answer): Status {
    match answer
    case Okay => SENT
    case Permanent => DEAD
    case Transient => FAILED
  }

  /** A step of a cancellation call: `findMany`, `updateMany`, `removeDelivery`. */
  datatype CancelStep = FindPending | UpdatePending | RemoveJob

  function EventOf(step: CancelStep): Event {
    match step
    case FindPending => Find
    case UpdatePending => Update
    case RemoveJob => Pull
  }

  function AfterCancels(s: State, steps: seq<CancelStep>): State
    decreases |steps|
  {
    if steps == [] then s else AfterCancels(Step(s, EventOf(steps[0])), steps[1..])
  }

  /** The row of one delivery and its job, driven by the worker, and the cancellation calls
      that are under way. The ghost trace records each step taken, so that whatever the
      methods do is a run of the machine above. */
  class DeliveryJob {
    const maxAttempts: nat
    var status: Status
    var attempts: nat
    var attemptsMade: nat
    var found: nat
    var pulls: nat
    var queued: bool
    ghost var machine: State
    ghost var trace: seq<Event>

    constructor (maxAttempts: nat)
      ensures Valid() && this.maxAttempts == maxAttempts && trace == []
    {
      this.maxAttempts := maxAttempts;
      status, attempts, attemptsMade, found, pulls := PENDING, 0, 0, 0, 0;
      queued := true;
      machine, trace := Init(maxAttempts), [];
    }

    /** The machine has taken the steps of the trace. */
    ghost predicate OnRun()
      reads this`machine, this`trace
    {
      machine == Run(Init(maxAttempts), trace)
    }

    ghost predicate Valid()
      reads this
    {
      OnRun() && machine.maxAttempts == maxAttempts
      && machine.status == status && machine.attempts == attempts && machine.attemptsMade == attemptsMade
      && machine.found == found && machine.pulls == pulls && (queued <==> machine.phase == Waiting)
    }

    ghost method Note(e: Event)
      requires OnRun()
      modifies this`machine, this`trace
      ensures OnRun() && machine == Step(old(machine), e)
    {
      RunAppend(Init(maxAttempts), trace, [e]);
      RunOne(machine, e);
      machine := Step(machine, e);
      trace := trace + [e];
    }

    /** One step of a cancellation; only a job that waits in the queue can be removed. */
    method CancelStepTaken(step: CancelStep)
      requires Valid()
      modifies this`status, this`found, this`pulls, this`queued, this`machine, this`trace
      ensures Valid() && machine == Step(old(machine), EventOf(step))
    {
      match step {
        case FindPending =>
          if status == PENDING {
            found := found + 1;
          }
        case UpdatePending =>
          if found > 0 {
            if status == PENDING {
              status := CANCELLED;
            }
            found, pulls := found - 1, pulls + 1;
          }
        case RemoveJob =>
          if pulls > 0 {
            pulls, queued := pulls - 1, false;
          }
      }
      Note(EventOf(step));
    }

    /** A point where the code waits, at which steps of cancellations may come. */
    method Await(steps: seq<CancelStep>)
      requires Valid()
      modifies this`status, this`found, this`pulls, this`queued, this`machine, this`trace
      ensures Valid() && machine == AfterCancels(old(machine), steps)
      ensures status == old(status) || (old(status) == PENDING && status == CANCELLED)
      ensures machine.calls == old(machine.calls)
      ensures machine.phase == old(machine.phase) || (old(machine.phase) == Waiting && machine.phase == Removed)
    {
      for i := 0 to |steps|
        invariant Valid() && machine.calls == old(machine.calls)
        invariant AfterCancels(old(machine), steps) == AfterCancels(machine, steps[i..])
        invariant status == old(status) || (old(status) == PENDING && status == CANCELLED)
        invariant machine.phase == old(machine.phase) || (old(machine.phase) == Waiting && machine.phase == Removed)
      {
        assert steps[i..][1..] == steps[i + 1..];
        CancelStepTaken(steps[i]);
      }
    }

    /** The worker takes the job, unless a cancellation has removed it from the queue. */
    method TakeJob(steps: seq<CancelStep>) returns (taken: bool)
      requires Valid() && machine.phase == Waiting
      modifies this`status, this`found, this`pulls, this`queued, this`machine, this`trace
      ensures Valid() && machine == Step(AfterCancels(old(machine), steps), Pick)
      ensures machine.phase == if taken then Begun else Removed
    {
      Await(steps);
      taken := queued;
      Note(Pick);
      queued := false;
    }

    method MarkResult(newStatus: Status, newAttempts: nat)
      modifies this`status, this`attempts
      ensures status == newStatus && attempts == newAttempts
    {
      status, attempts := newStatus, newAttempts;
    }

    method MarkAttempt(newAttempts: nat)
      modifies this`status, this`attempts
      ensures status == FAILED && attempts == newAttempts
    {
      attempts, status := newAttempts, FAILED;
    }

    /** One attempt. Steps of cancellations may come at each point where the code waits:
        before the row is read, before the text is rendered, before the call and before its
        outcome is written. The attempt is a run of the machine, and it throws exactly when the
        machine's attempt does. */
    method Deliver(prepared: Prepared, answer: Answer, emitted: bool,
                   at0: seq<CancelStep>, at1: seq<CancelStep>, at2: seq<CancelStep>, at3: seq<CancelStep>) returns (threw: bool)
      requires Valid() && machine.phase == Begun
      modifies this`status, this`attempts, this`found, this`pulls, this`queued, this`machine, this`trace
      ensures Valid() && machine.phase == if threw then Threw else Finished
      ensures machine.calls <= old(machine).calls + 1
      ensures old(status) == SENT || old(status) == CANCELLED ==> status == old(status) && machine.calls == old(machine).calls
    {
      Await(at0);
      var seen, recorded := status, attempts;
      Note(Load);
      if seen == CANCELLED || seen == SENT {
        return false;
      }
      threw := Attempt(recorded, prepared, answer, emitted, at1, at2, at3);
    }

    /** The part of an attempt after the row has been read. */
    method Attempt(recorded: nat, prepared: Prepared, answer: Answer, emitted: bool,
                   at1: seq<CancelStep>, at2: seq<CancelStep>, at3: seq<CancelStep>) returns (threw: bool)
      requires Valid() && machine.phase == Loaded(recorded)
      modifies this`status, this`attempts, this`found, this`pulls, this`queued, this`machine, this`trace
      ensures Valid() && machine.phase == if threw then Threw else Finished
      ensures machine.calls == old(machine).calls + (if prepared == Rendered then 1 else 0)
      ensures attempts == if prepared == Rendered then attemptsMade + 1 else if prepared == Missing then recorded else old(attempts)
      ensures prepared == Rendered ==> status == StatusFor(answer)
      ensures prepared == Missing ==> status == DEAD
    {
      Await(at1);
      Note(Prepare(prepared));
      if prepared == RenderFails {
        return true;
      }
      Await(at2);
      if prepared == Missing {
        Note(Record(true));
        MarkResult(DEAD, recorded);
        return false;
      }
      threw := Call(answer, emitted, at3);
    }

    /** The call of the provider, and what becomes of its answer. */
    method Call(answer: Answer, emitted: bool, at3: seq<CancelStep>) returns (threw: bool)
      requires Valid() && machine.phase == Ready
      modifies this`status, this`attempts, this`found, this`pulls, this`queued, this`machine, this`trace
      ensures Valid() && machine.phase == if threw then Threw else Finished
      ensures machine.calls == old(machine).calls + 1
      ensures status == StatusFor(answer) && attempts == attemptsMade + 1
    {
      Note(Send(answer));
      Await(at3);
      threw := RecordAnswer(answer, emitted);
    }

    method RecordAnswer(answer: Answer, emitted: bool) returns (threw: bool)
      requires Valid() && machine.phase == Answered(answer)
      modifies this`status, this`attempts, this`found, this`pulls, this`queued, this`machine, this`trace
      ensures Valid() && machine == Step(old(machine), Record(emitted))
      ensures machine.phase == if threw then Threw else Finished
      ensures status == StatusFor(answer) && attempts == attemptsMade + 1
    {
      var attemptNo := attemptsMade + 1;
      Note(Record(emitted));
      match answer {
        case Okay =>
          MarkResult(SENT, attemptNo);
          return !emitted;
        case Permanent =>
          MarkResult(DEAD, attemptNo);
          return false;
        case Transient =>
          MarkAttempt(attemptNo);
          return true;
      }
    }

    /** The queue counts an attempt that threw; the job waits again or is exhausted. */
    method AttemptFailed() returns (exhausted: bool)
      requires Valid() && machine.phase == Threw
      modifies this`attemptsMade, this`queued, this`machine, this`trace
      ensures Valid() && machine == Step(old(machine), Settle)
      ensures machine.phase == if exhausted then Exhausting else Waiting
    {
      attemptsMade := attemptsMade + 1;
      exhausted := attemptsMade >= maxAttempts;
      queued := !exhausted;
      Note(Settle);
    }

    method OnExhausted(steps: seq<CancelStep>)
      requires Valid() && machine.phase == Exhausting
      modifies this`status, this`attempts, this`found, this`pulls, this`queued, this`machine, this`trace
      ensures Valid() && machine.phase == Finished
      ensures status == (if old(status) == SENT || old(status) == CANCELLED then old(status) else DEAD)
      ensures attempts == old(attempts)
    {
      var seen, recorded := status, attempts;
      Note(Exhaust);
      if seen == SENT || seen == CANCELLED {
        return;
      }
      Await(steps);
      Note(Bury);
      MarkResult(DEAD, recorded);
    }
  }
}
