/**
 Deferring a run past recurring maintenance windows by a bounded loop: what it returns in
 every case, and when the bound cannot be reached.
 */
module Maintenance {
  import opened Prelude

  /** `prev` is the greatest start strictly before an instant; instants in milliseconds. */
  datatype Window = Window(prev: int -> int, durationMs: int, deferNonCritical: bool)

  /** What `prev` is, as a function: nothing starts between `prev(t)` and `t`. */
  ghost predicate Recurring(w: Window) {
    && (forall t: int :: w.prev(t) < t)
    && (forall t: int, u: int :: w.prev(t) < u <= t ==> w.prev(u) == w.prev(t))
  }

  ghost predicate AllRecurring(ws: seq<Window>) {
    forall i :: 0 <= i < |ws| ==> Recurring(ws[i])
  }

  ghost predicate IsStart(w: Window, s: int) {
    w.prev(s + 1) == s
  }

  function StartCovering(w: Window, at: int): Option<int> {
    if at - w.prev(at) < w.durationMs then Some(w.prev(at)) else None
  }

  predicate Contains(w: Window, at: int) {
    StartCovering(w, at).Some?
  }

  function EndOfWindowAt(w: Window, at: int): Option<int> {
    var s := StartCovering(w, at);
    if s.Some? then Some(s.value + w.durationMs) else None
  }

  lemma {:induction false} PrevIsGreatestStart(w: Window, t: int, s: int)
    requires Recurring(w)
    ensures IsStart(w, w.prev(t))
    ensures IsStart(w, s) && s < t ==> s <= w.prev(t)
  {
    assert w.prev(w.prev(t) + 1) == w.prev(t);
    assert w.prev(t) < s + 1 <= t ==> w.prev(s + 1) == w.prev(t);
  }

  /** An instant is inside a window when it is strictly after a start and before its end.
      So the very instant a window opens is outside, unless an earlier occurrence is open. */
  lemma {:induction false} ContainsMeans(w: Window, at: int)
    requires Recurring(w)
    ensures Contains(w, at) <==> exists s :: IsStart(w, s) && s < at < s + w.durationMs
    ensures EndOfWindowAt(w, at).Some? <==> Contains(w, at)
  {
    PrevIsGreatestStart(w, at, w.prev(at));
    if s :| IsStart(w, s) && s < at < s + w.durationMs {
      PrevIsGreatestStart(w, at, s);
    }
  }

  /** What the documentation of the lookup promises: a window covers its opening instant. */
  ghost predicate Documented(w: Window, at: int) {
    exists s :: IsStart(w, s) && s <= at < s + w.durationMs
  }

  /** The test and its documentation agree exactly at the instants at which no window with
      a duration opens, and where an earlier occurrence is still open. */
  lemma {:induction false} DocumentedExactlyWhen(w: Window, at: int)
    requires Recurring(w)
    ensures (Contains(w, at) <==> Documented(w, at))
       <==> w.durationMs <= 0 || !IsStart(w, at) || at - w.prev(at) < w.durationMs
  {
    ContainsMeans(w, at);
    if Documented(w, at) && !Contains(w, at) {
      var s :| IsStart(w, s) && s <= at < s + w.durationMs;
      assert s == at;
    }
  }

  predicate Blocks(w: Window, at: int) {
    w.deferNonCritical && Contains(w, at)
  }

  /** The position of the first window that blocks. */
  function FirstBlocking(ws: seq<Window>, at: int): (r: Option<nat>)
    ensures r.Some? ==> r.value < |ws| && Blocks(ws[r.value], at)
  {
    if ws == [] then None
    else if Blocks(ws[0], at) then Some(0)
    else
      var rest := FirstBlocking(ws[1..], at);
      if rest.Some? then Some(rest.value + 1) else None
  }

  /** No deferrable window is open. */
  ghost predicate Clear(ws: seq<Window>, at: int) {
    forall i :: 0 <= i < |ws| ==> !Blocks(ws[i], at)
  }

  lemma {:induction false} NoneBlockingIsClear(ws: seq<Window>, at: int)
    ensures FirstBlocking(ws, at).None? <==> Clear(ws, at)
  {
    if ws != [] {
      NoneBlockingIsClear(ws[1..], at);
      assert forall i :: 0 < i < |ws| ==> ws[i] == ws[1..][i - 1];
      if Clear(ws, at) {
        assert forall i :: 0 <= i < |ws[1..]| ==> ws[1..][i] == ws[i + 1];
      }
    }
  }

  function PastWindow(w: Window, at: int): int {
    w.prev(at) + w.durationMs
  }

  /** The cursor after at most `rounds` rounds of the loop. */
  function Chase(ws: seq<Window>, at: int, rounds: nat): int
    decreases rounds
  {
    var b := FirstBlocking(ws, at);
    if rounds == 0 || b.None? then at else Chase(ws, PastWindow(ws[b.value], at), rounds - 1)
  }

  datatype Deferral = Deferral(runAt: int, deferred: bool)

  function Resolve(ws: seq<Window>, runAt: int, deferrable: bool): Deferral {
    if !deferrable then Deferral(runAt, false)
    else Deferral(Chase(ws, runAt, |ws| * 2 + 1), FirstBlocking(ws, runAt).Some?)
  }

  method ResolveAgainstMaintenance(ws: seq<Window>, runAt: int, deferrable: bool) returns (r: Deferral)
    ensures r == Resolve(ws, runAt, deferrable)
    ensures !deferrable ==> r == Deferral(runAt, false)
  {
    if !deferrable {
      return Deferral(runAt, false);
    }
    var cursor, deferred := runAt, false;
    for i := 0 to |ws| * 2 + 1
      invariant Chase(ws, cursor, |ws| * 2 + 1 - i) == Chase(ws, runAt, |ws| * 2 + 1)
      invariant deferred <==> i > 0
      invariant if i == 0 then cursor == runAt else FirstBlocking(ws, runAt).Some?
    {
      var blocking := FirstBlocking(ws, cursor);
      if blocking.None? {
        break;
      }
      var end := EndOfWindowAt(ws[blocking.value], cursor);
      if end.None? {
        break;
      }
      cursor := end.value;
      deferred := true;
    }
    return Deferral(cursor, deferred);
  }

  // ---- what is skipped ----

  lemma {:induction false} PrevMonotone(w: Window, t: int, u: int)
    requires Recurring(w) && t <= u
    ensures w.prev(t) <= w.prev(u)
  {
    PrevIsGreatestStart(w, t, 0);
    PrevIsGreatestStart(w, u, w.prev(t));
  }

  lemma {:induction false} ChaseSkipsOnlyBlocked(ws: seq<Window>, at: int, rounds: nat)
    requires AllRecurring(ws)
    ensures Chase(ws, at, rounds) >= at
    ensures forall t :: at <= t < Chase(ws, at, rounds) ==> !Clear(ws, t)
    decreases rounds
  {
    var b := FirstBlocking(ws, at);
    if rounds > 0 && b.Some? {
      var w := ws[b.value];
      var next := PastWindow(w, at);
      assert Recurring(w);
      ChaseSkipsOnlyBlocked(ws, next, rounds - 1);
      forall t | at <= t < next ensures !Clear(ws, t) {
        PrevMonotone(w, at, t);
        assert Blocks(ws[b.value], t);
      }
    }
  }

  /** The instant lies inside a window to which deferrable runs give way: strictly after one
      of its starts and before that occurrence ends. */
  ghost predicate InDeferrable(ws: seq<Window>, at: int) {
    exists i, s :: 0 <= i < |ws| && ws[i].deferNonCritical && IsStart(ws[i], s) && s < at < s + ws[i].durationMs
  }

  lemma {:induction false} ClearMeans(ws: seq<Window>, at: int)
    requires AllRecurring(ws)
    ensures Clear(ws, at) <==> !InDeferrable(ws, at)
  {
    forall i | 0 <= i < |ws|
      ensures Blocks(ws[i], at)
         <==> ws[i].deferNonCritical && exists s :: IsStart(ws[i], s) && s < at < s + ws[i].durationMs
    {
      ContainsMeans(ws[i], at);
    }
    if InDeferrable(ws, at) {
      var i, s :| 0 <= i < |ws| && ws[i].deferNonCritical && IsStart(ws[i], s) && s < at < s + ws[i].durationMs;
      assert Blocks(ws[i], at);
    }
  }

  /** A run that is not deferrable stays where it is. Any other is never moved earlier, and
      only past instants inside deferrable windows: so it stays where it is exactly when that
      is outside of them, and if the result is, it is the least such instant from there. */
  lemma {:induction false} DeferralMeans(ws: seq<Window>, runAt: int, deferrable: bool)
    requires AllRecurring(ws)
    ensures var r := Resolve(ws, runAt, deferrable);
            && r.runAt >= runAt && (r.deferred <==> r.runAt != runAt)
            && (r.deferred <==> deferrable && InDeferrable(ws, runAt))
            && (forall t :: runAt <= t < r.runAt ==> InDeferrable(ws, t))
  {
    if deferrable {
      DeferralSkipsOnlyWindows(ws, runAt);
      NoneBlockingIsClear(ws, runAt);
      ClearMeans(ws, runAt);
      forall t | runAt <= t < Resolve(ws, runAt, true).runAt ensures InDeferrable(ws, t) {
        ClearMeans(ws, t);
      }
    }
  }

  /** Deferral never moves a run earlier, and every instant it skips lies inside a
      deferrable window. If the result lies inside none, it is the least instant at or
      after the requested one that does. */
  lemma {:induction false} DeferralSkipsOnlyWindows(ws: seq<Window>, runAt: int)
    requires AllRecurring(ws)
    ensures var r := Resolve(ws, runAt, true).runAt;
            && r >= runAt
            && (forall t :: runAt <= t < r ==> !Clear(ws, t))
            && (Clear(ws, r) ==> forall t :: runAt <= t && Clear(ws, t) ==> r <= t)
    ensures Resolve(ws, runAt, true).deferred <==> Resolve(ws, runAt, true).runAt != runAt
  {
    ChaseSkipsOnlyBlocked(ws, runAt, |ws| * 2 + 1);
    var b := FirstBlocking(ws, runAt);
    if b.Some? {
      var w := ws[b.value];
      assert Recurring(w);
      ChaseSkipsOnlyBlocked(ws, PastWindow(w, runAt), |ws| * 2);
    }
  }

  // ---- when the bound is enough ----

  function Weight(w: Window): int {
    if w.deferNonCritical then w.durationMs else 0
  }

  /** The durations of the deferrable windows whose position is in `used`. */
  function Total(ws: seq<Window>, used: set<nat>): int {
    if ws == [] then 0
    else
      var n: nat := |ws| - 1;
      Total(ws[..n], used) + if n in used then Weight(ws[n]) else 0
  }

  function All(n: nat): (r: set<nat>)
    ensures forall i: nat :: i in r <==> i < n
  {
    if n == 0 then {} else All(n - 1) + {n - 1}
  }

  /** Starts of a window are at least `gap` apart. */
  ghost predicate Spaced(w: Window, gap: int) {
    forall s: int, t: int :: IsStart(w, s) && IsStart(w, t) && s < t ==> t >= s + gap
  }

  ghost predicate HaveDurations(ws: seq<Window>) {
    forall i :: 0 <= i < |ws| ==> ws[i].durationMs >= 0
  }

  /** None of the windows recurs within the total of all their durations. */
  ghost predicate Sparse(ws: seq<Window>) {
    && AllRecurring(ws) && HaveDurations(ws)
    && (forall i :: 0 <= i < |ws| && ws[i].deferNonCritical ==> Spaced(ws[i], Total(ws, All(|ws|))))
  }

  lemma {:induction false} TotalAdd(ws: seq<Window>, used: set<nat>, k: nat)
    requires k !in used
    ensures Total(ws, used + {k}) == Total(ws, used) + if k < |ws| then Weight(ws[k]) else 0
  {
    if ws != [] {
      TotalAdd(ws[..|ws| - 1], used, k);
    }
  }

  lemma {:induction false} TotalAtMost(ws: seq<Window>, used: set<nat>, all: set<nat>)
    requires used <= all && HaveDurations(ws)
    ensures Total(ws, used) <= Total(ws, all)
  {
    if ws != [] {
      TotalAtMost(ws[..|ws| - 1], used, all);
    }
  }

  lemma {:induction false} TotalNone(ws: seq<Window>)
    ensures Total(ws, {}) == 0
  {
    if ws != [] {
      TotalNone(ws[..|ws| - 1]);
    }
  }

  lemma {:induction false} AllSize(n: nat)
    ensures |All(n)| == n
  {
    if n > 0 {
      AllSize(n - 1);
    }
  }

  lemma {:induction false} UsedFits(n: nat, used: set<nat>, k: nat)
    requires k < n && k !in used && forall i :: i in used ==> i < n
    ensures |used + {k}| == |used| + 1 <= n
  {
    AllSize(n);
    SubsetSize(used + {k}, All(n));
  }

  lemma {:induction false} ChaseStep(ws: seq<Window>, at: int, rounds: nat)
    requires rounds > 0 && FirstBlocking(ws, at).Some?
    ensures Chase(ws, at, rounds) == Chase(ws, PastWindow(ws[FirstBlocking(ws, at).value], at), rounds - 1)
  {
  }

  /** A count that each blocking round raises, and that stays below a limit, ends the loop
      within as many rounds as are left to the limit. */
  lemma {:induction false} ChaseEnds(
      ws: seq<Window>, counted: (nat, int) -> bool, limit: nat, n: nat, at: int, rounds: nat)
    requires forall m: nat, t: int :: counted(m, t) && FirstBlocking(ws, t).Some? ==>
      m < limit && counted(m + 1, PastWindow(ws[FirstBlocking(ws, t).value], t))
    requires counted(n, at) && n + rounds >= limit
    ensures FirstBlocking(ws, Chase(ws, at, rounds)).None?
    decreases rounds
  {
    var b := FirstBlocking(ws, at);
    if b.Some? {
      ChaseStep(ws, at, rounds);
      ChaseEnds(ws, counted, limit, n + 1, PastWindow(ws[b.value], at), rounds - 1);
    }
  }

  /** Rounds after the cursor is clear change nothing. */
  lemma {:induction false} EnoughIsEnough(ws: seq<Window>, at: int, rounds: nat, more: nat)
    requires rounds <= more && FirstBlocking(ws, Chase(ws, at, rounds)).None?
    ensures Chase(ws, at, more) == Chase(ws, at, rounds)
    decreases rounds
  {
    var b := FirstBlocking(ws, at);
    if rounds > 0 && b.Some? {
      EnoughIsEnough(ws, PastWindow(ws[b.value], at), rounds - 1, more - 1);
    }
  }

  /** Any start and the second one after it are at least `gap` apart. */
  ghost predicate SpacedInPairs(w: Window, gap: int) {
    forall s: int, t: int, u: int :: IsStart(w, s) && IsStart(w, t) && IsStart(w, u) && s < t < u ==> u >= s + gap
  }

  /** None of the windows begins three times within twice the total of all durations. */
  ghost predicate SparseInPairs(ws: seq<Window>) {
    && AllRecurring(ws) && HaveDurations(ws)
    && (forall i :: 0 <= i < |ws| && ws[i].deferNonCritical ==> SpacedInPairs(ws[i], 2 * Total(ws, All(|ws|))))
  }

  /** Where the first and the latest occurrence that blocked began. */
  datatype Met = Met(first: int, latest: int)

  /** A window met, and met twice where `twice` says so: over, and begun no further back
      than all the blocks since can last. */
  ghost predicate MetBefore(w: Window, twice: bool, m: Met, elapsed: int, at: int) {
    && w.deferNonCritical && IsStart(w, m.first) && IsStart(w, m.latest)
    && m.first <= m.latest && (twice ==> m.first < m.latest)
    && m.latest + w.durationMs <= at <= m.first + elapsed
  }

  ghost predicate PassedTwice(ws: seq<Window>, once: set<nat>, twice: set<nat>, met: map<nat, Met>, at: int) {
    && once == met.Keys && twice <= once
    && forall i :: i in once ==>
         i < |ws| && MetBefore(ws[i], i in twice, met[i], Total(ws, once) + Total(ws, twice), at)
  }

  /** A third occurrence would begin too far off. */
  lemma {:induction false} NoThirdBlock(w: Window, m: Met, elapsed: int, at: int)
    requires Recurring(w) && SpacedInPairs(w, elapsed) && w.durationMs >= 0
    requires MetBefore(w, true, m, elapsed, at)
    ensures !Contains(w, at)
  {
    PrevIsGreatestStart(w, at, m.latest);
  }

  lemma {:induction false} BlockingIsNotMetTwice(
      ws: seq<Window>, once: set<nat>, twice: set<nat>, met: map<nat, Met>, at: int, k: nat)
    requires SparseInPairs(ws) && PassedTwice(ws, once, twice, met, at) && k < |ws| && Blocks(ws[k], at)
    ensures k !in twice
  {
    var all := All(|ws|);
    if k in twice {
      assert once <= all && twice <= all;
      TotalAtMost(ws, once, all);
      TotalAtMost(ws, twice, all);
      assert MetBefore(ws[k], true, met[k], 2 * Total(ws, all), at);
      NoThirdBlock(ws[k], met[k], 2 * Total(ws, all), at);
    }
  }

  /** The occurrence that blocks becomes the latest. */
  function MetAgain(met: map<nat, Met>, k: nat, start: int): map<nat, Met> {
    met[k := if k in met then Met(met[k].first, start) else Met(start, start)]
  }

  lemma {:induction false} MetStaysMet(w: Window, twice: bool, m: Met, elapsed: int, at: int, more: int, next: int)
    requires MetBefore(w, twice, m, elapsed, at) && at <= next <= at + more
    ensures MetBefore(w, twice, m, elapsed + more, next)
  {
  }

  lemma {:induction false} BlockIsMet(w: Window, m: Met, elapsed: int, at: int)
    requires Recurring(w) && Blocks(w, at) && elapsed >= 0 && w.durationMs >= 0
    ensures MetBefore(w, false, Met(w.prev(at), w.prev(at)), elapsed + w.durationMs, PastWindow(w, at))
    ensures MetBefore(w, false, m, elapsed, at) ==>
      MetBefore(w, true, Met(m.first, w.prev(at)), elapsed + w.durationMs, PastWindow(w, at))
  {
    PrevIsGreatestStart(w, at, m.latest);
  }

  function TwiceMore(once: set<nat>, twice: set<nat>, k: nat): set<nat> {
    if k in once then twice + {k} else twice
  }

  /** One more block of the k-th window lasts as long as that window. */
  lemma {:induction false} ElapsedMore(ws: seq<Window>, once: set<nat>, twice: set<nat>, k: nat)
    requires k < |ws| && ws[k].deferNonCritical && k !in twice && twice <= once
    requires HaveDurations(ws)
    ensures Total(ws, once + {k}) + Total(ws, TwiceMore(once, twice, k))
         == Total(ws, once) + Total(ws, twice) + ws[k].durationMs
    ensures Total(ws, once) + Total(ws, twice) >= 0
  {
    TotalNone(ws);
    TotalAtMost(ws, {}, once);
    TotalAtMost(ws, {}, twice);
    if k in once {
      assert once + {k} == once;
      TotalAdd(ws, twice, k);
    } else {
      TotalAdd(ws, once, k);
    }
  }

  lemma {:induction false} PassedTwiceMore(
      ws: seq<Window>, once: set<nat>, twice: set<nat>, met: map<nat, Met>, at: int, k: nat)
    requires AllRecurring(ws) && HaveDurations(ws)
    requires PassedTwice(ws, once, twice, met, at) && k < |ws| && Blocks(ws[k], at) && k !in twice
    ensures PassedTwice(ws, once + {k}, TwiceMore(once, twice, k), MetAgain(met, k, ws[k].prev(at)), PastWindow(ws[k], at))
  {
    var w, elapsed, next := ws[k], Total(ws, once) + Total(ws, twice), PastWindow(ws[k], at);
    var once', twice', met' := once + {k}, TwiceMore(once, twice, k), MetAgain(met, k, w.prev(at));
    assert Recurring(w);
    ElapsedMore(ws, once, twice, k);
    BlockIsMet(w, if k in once then met[k] else Met(0, 0), elapsed, at);
    forall i | i in once' ensures i < |ws| && MetBefore(ws[i], i in twice', met'[i], elapsed + w.durationMs, next) {
      if i != k {
        MetStaysMet(ws[i], i in twice, met[i], elapsed, at, w.durationMs, next);
      }
    }
  }

  lemma {:induction false} CountGrows(n: nat, once: set<nat>, twice: set<nat>, k: nat)
    requires k < n && k !in twice && twice <= once && forall i :: i in once ==> i < n
    ensures |once + {k}| + |TwiceMore(once, twice, k)| == |once| + |twice| + 1 <= 2 * n
  {
    AllSize(n);
    SubsetSize(once, All(n));
    UsedFits(n, twice, k);
    if k in once {
      assert once + {k} == once;
    } else {
      UsedFits(n, once, k);
    }
  }

  /** `n` blocks so far, none of them the third of its window. */
  ghost predicate BlockedInPairs(ws: seq<Window>, n: nat, at: int) {
    exists once: set<nat>, twice: set<nat>, met ::
      PassedTwice(ws, once, twice, met, at) && |once| + |twice| == n
  }

  lemma {:induction false} RoundInPairs(ws: seq<Window>, n: nat, at: int, k: nat)
    requires SparseInPairs(ws) && BlockedInPairs(ws, n, at) && FirstBlocking(ws, at) == Some(k)
    ensures n < 2 * |ws| && BlockedInPairs(ws, n + 1, PastWindow(ws[k], at))
  {
    var once: set<nat>, twice: set<nat>, met :|
      PassedTwice(ws, once, twice, met, at) && |once| + |twice| == n;
    BlockingIsNotMetTwice(ws, once, twice, met, at, k);
    PassedTwiceMore(ws, once, twice, met, at, k);
    CountGrows(|ws|, once, twice, k);
  }

  /** The bound of the loop is not reached when no window can block a third time: when no
      two starts of it with one between them lie within twice the total of all durations. */
  lemma {:induction false} TwiceBlockingWindowsAreCleared(ws: seq<Window>, runAt: int)
    requires SparseInPairs(ws)
    ensures var r := Resolve(ws, runAt, true).runAt;
            && Clear(ws, r)
            && r == Chase(ws, runAt, 2 * |ws|)
            && forall t :: runAt <= t && Clear(ws, t) ==> r <= t
  {
    assert PassedTwice(ws, {}, {}, map[], runAt);
    forall n: nat, t: int | BlockedInPairs(ws, n, t) && FirstBlocking(ws, t).Some?
      ensures n < 2 * |ws| && BlockedInPairs(ws, n + 1, PastWindow(ws[FirstBlocking(ws, t).value], t))
    {
      RoundInPairs(ws, n, t, FirstBlocking(ws, t).value);
    }
    ChaseEnds(ws, (n: nat, t: int) => BlockedInPairs(ws, n, t), 2 * |ws|, 0, runAt, 2 * |ws|);
    EnoughIsEnough(ws, runAt, 2 * |ws|, |ws| * 2 + 1);
    NoneBlockingIsClear(ws, Resolve(ws, runAt, true).runAt);
    DeferralSkipsOnlyWindows(ws, runAt);
  }

  // ---- when each window can block once ----

  /** A window met before cannot block: its next occurrence begins too far off. */
  lemma {:induction false} BlockingIsNotMet(ws: seq<Window>, once: set<nat>, met: map<nat, Met>, at: int, k: nat)
    requires Sparse(ws) && PassedTwice(ws, once, {}, met, at) && k < |ws| && Blocks(ws[k], at)
    ensures k !in once
  {
    var all := All(|ws|);
    if k in once {
      assert once <= all;
      TotalAtMost(ws, once, all);
      TotalNone(ws);
      assert MetBefore(ws[k], false, met[k], Total(ws, all), at);
      NoSecondBlock(ws[k], met[k], Total(ws, all), at);
    }
  }

  lemma {:induction false} NoSecondBlock(w: Window, m: Met, elapsed: int, at: int)
    requires Recurring(w) && Spaced(w, elapsed) && w.durationMs >= 0 && MetBefore(w, false, m, elapsed, at)
    ensures !Contains(w, at)
  {
    PrevIsGreatestStart(w, at, m.latest);
  }

  /** `n` blocks so far, each of another window. */
  ghost predicate BlockedOnce(ws: seq<Window>, n: nat, at: int) {
    exists once: set<nat>, met :: PassedTwice(ws, once, {}, met, at) && |once| == n
  }

  lemma {:induction false} RoundOnce(ws: seq<Window>, n: nat, at: int, k: nat)
    requires Sparse(ws) && BlockedOnce(ws, n, at) && FirstBlocking(ws, at) == Some(k)
    ensures n < |ws| && BlockedOnce(ws, n + 1, PastWindow(ws[k], at))
  {
    var once: set<nat>, met :| PassedTwice(ws, once, {}, met, at) && |once| == n;
    BlockingIsNotMet(ws, once, met, at, k);
    PassedTwiceMore(ws, once, {}, met, at, k);
    UsedFits(|ws|, once, k);
  }

  /** If no deferrable window recurs within the total of all durations, each blocks at
      most once: as many rounds as there are windows are enough, the bound of the loop is
      never reached, and the run lands on the least clear instant. */
  lemma {:induction false} SparseWindowsAreCleared(ws: seq<Window>, runAt: int)
    requires Sparse(ws)
    ensures var r := Resolve(ws, runAt, true).runAt;
            && Clear(ws, r)
            && r == Chase(ws, runAt, |ws|)
            && forall t :: runAt <= t && Clear(ws, t) ==> r <= t
  {
    assert PassedTwice(ws, {}, {}, map[], runAt);
    forall n: nat, t: int | BlockedOnce(ws, n, t) && FirstBlocking(ws, t).Some?
      ensures n < |ws| && BlockedOnce(ws, n + 1, PastWindow(ws[FirstBlocking(ws, t).value], t))
    {
      RoundOnce(ws, n, t, FirstBlocking(ws, t).value);
    }
    ChaseEnds(ws, (n: nat, t: int) => BlockedOnce(ws, n, t), |ws|, 0, runAt, |ws|);
    EnoughIsEnough(ws, runAt, |ws|, |ws| * 2 + 1);
    NoneBlockingIsClear(ws, Resolve(ws, runAt, true).runAt);
    DeferralSkipsOnlyWindows(ws, runAt);
  }

  // ---- when the bound runs out ----

  /** The window opens every `period` milliseconds. */
  ghost predicate Periodic(w: Window, period: int) {
    Recurring(w) && Spaced(w, period) && forall t: int :: t - w.prev(t) <= period
  }

  /** With one deferrable window that opens at a fixed period, the run lands outside it
      exactly when the window lasts no longer than its period. */
  lemma {:induction false} PeriodicIsClearedExactlyWhen(w: Window, period: int, runAt: int)
    requires w.deferNonCritical && Periodic(w, period)
    ensures Clear([w], Resolve([w], runAt, true).runAt) <==> w.durationMs <= period
  {
    var ws, r := [w], Resolve([w], runAt, true).runAt;
    assert Clear(ws, r) <==> !Blocks(ws[0], r);
    if w.durationMs <= period {
      var next := PastWindow(w, runAt);
      PrevIsGreatestStart(w, runAt, 0);
      PrevIsGreatestStart(w, next, w.prev(runAt));
      assert Blocks(w, runAt) ==> w.prev(next) == w.prev(runAt);
      assert Blocks(w, runAt) ==> FirstBlocking(ws, next).None?;
      EnoughIsEnough(ws, runAt, 1, 3);
      NoneBlockingIsClear(ws, r);
    } else {
      assert r - w.prev(r) <= period;
    }
  }

  /** The starts of minutes, as the greatest one strictly before an instant. */
  function MinuteBefore(t: int): int {
    (t - 1) / 60000 * 60000
  }

  /** A window that opens every minute and lasts two. */
  const MINUTELY := Window(MinuteBefore, 120000, true)

  lemma {:induction false} MinutelyIsPeriodic()
    ensures Periodic(MINUTELY, 60000)
  {
    forall t: int, u: int | MinuteBefore(t) < u <= t ensures MinuteBefore(u) == MinuteBefore(t) {
    }
    forall s: int, t: int | IsStart(MINUTELY, s) && IsStart(MINUTELY, t) && s < t ensures t >= s + 60000 {
    }
  }

  /** One round over it moves the cursor on by a minute at least. */
  lemma {:induction false} MinutelyRound(at: int, rounds: nat)
    ensures Chase([MINUTELY], at, rounds + 1) == Chase([MINUTELY], MinuteBefore(at) + 120000, rounds)
    ensures MinuteBefore(MinuteBefore(at) + 120000) == MinuteBefore(at) + 60000
  {
    assert Blocks([MINUTELY][0], at);
  }

  /** The bound runs out, and the run lands inside that window whenever it was due. */
  lemma {:induction false} BoundCanRunOut(runAt: int)
    ensures var end := MinuteBefore(runAt) + 240000;
      Resolve([MINUTELY], runAt, true) == Deferral(end, true) && !Clear([MINUTELY], end)
  {
    var first := MinuteBefore(runAt) + 120000;
    MinutelyRound(runAt, 2);
    MinutelyRound(first, 1);
    MinutelyRound(first + 60000, 0);
    assert Blocks([MINUTELY][0], runAt);
    MinutelyIsPeriodic();
    PeriodicIsClearedExactlyWhen(MINUTELY, 60000, runAt);
  }
}
