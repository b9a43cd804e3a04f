/**
  `_rate_limit`: before each request the scraper drops the admission times
  that are a second old or more, sleeps when ten remain until the oldest of
  them is a second old, and records the clock reading taken after the sleep.

  The clock is abstract: `now` is the reading at the start of a call and the
  reading recorded at the end is `now + slept + overrun`, where `slept` is
  the requested sleep (zero when there is none) and `overrun >= 0` is however
  much longer the sleep and the code around it took.
 */
module RateLimit {
  import opened Strings

  const CallsPerSecond: nat := 10
  const Window: real := 1.0

  predicate Sorted(ts: seq<real>) {
    forall i, j :: 0 <= i <= j < |ts| ==> ts[i] <= ts[j]
  }

  /** No half-open window of one second holds more than `CallsPerSecond`
      of the (sorted) times: any two that are `CallsPerSecond` places apart
      are at least a second apart. */
  predicate Spaced(ts: seq<real>) {
    forall i, j :: 0 <= i && i + CallsPerSecond <= j < |ts| ==> ts[j] - ts[i] >= Window
  }

  predicate NotAfter(ts: seq<real>, now: real) {
    forall i :: 0 <= i < |ts| ==> ts[i] <= now
  }

  /** `[t for t in times if now - t < 1.0]` */
  function Prune(times: seq<real>, now: real): (kept: seq<real>)
    ensures |kept| <= |times|
    ensures forall t :: t in kept <==> t in times && now - t < Window
  {
    if |times| == 0 then []
    else (if now - times[0] < Window then [times[0]] else []) + Prune(times[1..], now)
  }

  /** `1.0 - (now - retained[0])` */
  function SleepTime(retained: seq<real>, now: real): real
    requires |retained| > 0
  {
    Window - (now - retained[0])
  }

  /** The call sleeps: at least `CallsPerSecond` times are retained and the
      computed sleep is positive. */
  predicate Waits(times: seq<real>, now: real) {
    var retained := Prune(times, now);
    |retained| >= CallsPerSecond && SleepTime(retained, now) > 0.0
  }

  function Slept(times: seq<real>, now: real): real {
    if Waits(times, now) then SleepTime(Prune(times, now), now) else 0.0
  }

  /** The clock reading the call records. */
  function Stamp(times: seq<real>, now: real, overrun: real): real {
    now + Slept(times, now) + overrun
  }

  /** One call: the new contents of `request_times`. */
  function RateLimit(times: seq<real>, now: real, overrun: real): (next: seq<real>)
    requires overrun >= 0.0
    ensures |next| >= 1 && next[|next| - 1] >= now
    ensures forall t :: t in next[..|next| - 1] <==> t in times && now - t < Window
  {
    var next := Prune(times, now) + [Stamp(times, now, overrun)];
    assert next[..|next| - 1] == Prune(times, now);
    next
  }

  /** A call sleeps exactly when at least `CallsPerSecond` admissions lie
      within the last second, and never for longer than a second. */
  lemma WaitIffFull(times: seq<real>, now: real)
    requires NotAfter(times, now)
    ensures Waits(times, now) <==> |Prune(times, now)| >= CallsPerSecond
    ensures 0.0 <= Slept(times, now) <= Window
  {
    var retained := Prune(times, now);
    if |retained| > 0 {
      assert retained[0] in retained;
      assert retained[0] in times;
    }
  }

  lemma {:induction false} PruneAllRecent(times: seq<real>, now: real)
    requires forall i :: 0 <= i < |times| ==> now - times[i] < Window
    ensures Prune(times, now) == times
  {
    if |times| > 0 {
      PruneAllRecent(times[1..], now);
    }
  }

  /** On sorted times the pruned list is a suffix: everything before index
      `|times| - |kept|` is old, everything from there on is recent. */
  lemma {:induction false} PruneIsSuffix(times: seq<real>, now: real)
    requires Sorted(times)
    ensures var m := |times| - |Prune(times, now)|;
            && Prune(times, now) == times[m..]
            && (forall j :: 0 <= j < m ==> now - times[j] >= Window)
            && (forall j :: m <= j < |times| ==> now - times[j] < Window)
  {
    if |times| > 0 {
      if now - times[0] < Window {
        PruneAllRecent(times, now);
      } else {
        PruneIsSuffix(times[1..], now);
      }
    }
  }

  /** Old times in front of the list make no difference to pruning. */
  lemma {:induction false} PruneDropsOld(older: seq<real>, rest: seq<real>, now: real)
    requires forall i :: 0 <= i < |older| ==> now - older[i] >= Window
    ensures Prune(older + rest, now) == Prune(rest, now)
  {
    if |older| > 0 {
      assert (older + rest)[0] == older[0];
      assert (older + rest)[1..] == older[1..] + rest;
      assert Prune(older + rest, now) == Prune((older + rest)[1..], now);
      PruneDropsOld(older[1..], rest, now);
    } else {
      assert older + rest == rest;
    }
  }

  lemma SpacedGap(h: seq<real>, i: nat, j: nat)
    requires Spaced(h) && i + CallsPerSecond <= j < |h|
    ensures h[j] - h[i] >= Window
  {
  }

  /** If the history is spaced, at most `CallsPerSecond` of it is retained. */
  lemma RetainedBound(h: seq<real>, now: real)
    requires Sorted(h) && Spaced(h) && NotAfter(h, now)
    ensures |Prune(h, now)| <= CallsPerSecond
  {
    PruneIsSuffix(h, now);
    var m := |h| - |Prune(h, now)|;
    if |Prune(h, now)| > CallsPerSecond {
      SpacedGap(h, m, m + CallsPerSecond);
      assert false;
    }
  }

  /** Admitting a call keeps the history sorted and spaced. */
  lemma AdmitKeepsSpacing(h: seq<real>, now: real, overrun: real)
    requires Sorted(h) && Spaced(h) && NotAfter(h, now) && overrun >= 0.0
    ensures Sorted(h + [Stamp(h, now, overrun)])
    ensures Spaced(h + [Stamp(h, now, overrun)])
  {
    var s := Stamp(h, now, overrun);
    var h' := h + [s];
    WaitIffFull(h, now);
    PruneIsSuffix(h, now);
    RetainedBound(h, now);
    var m := |h| - |Prune(h, now)|;
    forall i, j | 0 <= i && i + CallsPerSecond <= j < |h'|
      ensures h'[j] - h'[i] >= Window
    {
      if j == |h| && now - h[i] < Window {
        assert i >= m;
        assert i == m;
        assert Prune(h, now)[0] == h[m];
      }
    }
  }

  /** In a spaced history, each admission finds fewer than
      `CallsPerSecond` earlier admissions within the last second. */
  lemma RecentBelowCeiling(h: seq<real>, k: nat)
    requires Sorted(h) && Spaced(h) && k < |h|
    ensures |Prune(h[..k], h[k])| < CallsPerSecond
  {
    var g := h[..k];
    PruneIsSuffix(g, h[k]);
    var m := |g| - |Prune(g, h[k])|;
    if k - m >= CallsPerSecond {
      SpacedGap(h, m, k);
      assert false;
    }
  }

  /** A call as the scheduler sees it: how far the clock moved since the
      previous call recorded its time, and how far the sleep overran. */
  datatype Call = Call(gap: real, overrun: real)

  /** What the simulation keeps true: the recorded history is sorted and
      spaced, and the limiter's list is a suffix of it whose missing front
      is at least a second older than the clock. */
  predicate Tracks(history: seq<real>, times: seq<real>, clock: real) {
    && Sorted(history) && Spaced(history) && NotAfter(history, clock)
    && |times| <= |history| && times == history[|history| - |times|..]
    && forall i :: 0 <= i < |history| - |times| ==> clock - history[i] >= Window
  }

  /** The limiter's short list prunes to the same times as the whole
      history would, so it records the same time. */
  lemma ListAgreesWithHistory(history: seq<real>, times: seq<real>, clock: real, now: real, overrun: real)
    requires |times| <= |history| && times == history[|history| - |times|..]
    requires forall i :: 0 <= i < |history| - |times| ==> clock - history[i] >= Window
    requires now >= clock && overrun >= 0.0
    ensures Prune(times, now) == Prune(history, now)
    ensures RateLimit(times, now, overrun) == Prune(history, now) + [Stamp(history, now, overrun)]
  {
    assert Prune(times, now) == Prune(history, now) by {
      var older := history[..|history| - |times|];
      assert history == older + times;
      forall i | 0 <= i < |older|
        ensures now - older[i] >= Window
      {
        assert older[i] == history[i];
      }
      PruneDropsOld(older, times, now);
    }
    assert Stamp(times, now, overrun) == Stamp(history, now, overrun);
  }

  /** The reading a call records is no earlier than any admission before
      it. */
  lemma StampLatest(history: seq<real>, now: real, overrun: real)
    requires NotAfter(history, now) && overrun >= 0.0
    ensures Stamp(history, now, overrun) >= now
    ensures NotAfter(history + [Stamp(history, now, overrun)], Stamp(history, now, overrun))
  {
    var s := Stamp(history, now, overrun);
    WaitIffFull(history, now);
    var h' := history + [s];
    forall i | 0 <= i < |h'|
      ensures h'[i] <= s
    {
      if i < |history| {
        assert h'[i] == history[i];
      }
    }
  }

  /** After a call the limiter's list is the suffix of the history that
      starts at the first retained time, and everything before that is at
      least a second older than the recorded reading. */
  lemma ListIsRecentSuffix(history: seq<real>, now: real, s: real)
    requires Sorted(history) && s >= now
    ensures var h' := history + [s];
            var next := Prune(history, now) + [s];
            && |next| <= |h'| && next == h'[|h'| - |next|..]
            && forall i :: 0 <= i < |h'| - |next| ==> s - h'[i] >= Window
  {
    PruneIsSuffix(history, now);
    var m := |history| - |Prune(history, now)|;
    var h' := history + [s];
    var next := Prune(history, now) + [s];
    assert Prune(history, now) == history[m..];
    assert next == h'[m..];
    forall i | 0 <= i < m
      ensures s - h'[i] >= Window
    {
      assert h'[i] == history[i];
    }
  }

  /** Admitting a call at `now` into a tracked history keeps it tracked,
      with the pruned history and the new reading as the limiter's list. */
  lemma TracksAfter(history: seq<real>, now: real, overrun: real)
    requires Sorted(history) && Spaced(history) && NotAfter(history, now) && overrun >= 0.0
    ensures var s := Stamp(history, now, overrun);
            Tracks(history + [s], Prune(history, now) + [s], s)
  {
    var s := Stamp(history, now, overrun);
    AdmitKeepsSpacing(history, now, overrun);
    StampLatest(history, now, overrun);
    ListIsRecentSuffix(history, now, s);
  }

  /** One call of the limiter keeps the tracking invariant. */
  lemma StepTracks(history: seq<real>, times: seq<real>, clock: real, c: Call)
    requires Tracks(history, times, clock) && c.gap >= 0.0 && c.overrun >= 0.0
    ensures var next := RateLimit(times, clock + c.gap, c.overrun);
            Tracks(history + [next[|next| - 1]], next, next[|next| - 1])
  {
    var now := clock + c.gap;
    ListAgreesWithHistory(history, times, clock, now, c.overrun);
    assert NotAfter(history, now);
    TracksAfter(history, now, c.overrun);
  }

  /** The latest admission, or the starting clock before the first. */
  function Last(history: seq<real>, start: real): real {
    if |history| == 0 then start else history[|history| - 1]
  }

  /** What the clock read before call `j`: the admission before it, or the
      starting clock. */
  function Before(history: seq<real>, start: real, j: nat): real
    requires j <= |history|
  {
    Last(history[..j], start)
  }

  /** Each admission comes at least its call's gap after the one before it
      (or after the starting clock). */
  predicate FollowsGaps(history: seq<real>, start: real, calls: seq<Call>) {
    && |history| <= |calls|
    && forall j {:trigger Before(history, start, j)} :: 0 <= j < |history| ==> history[j] >= Before(history, start, j) + calls[j].gap
  }

  /** Read off for two neighbouring admissions: the later one comes at least
      its call's gap after the earlier one, and the first at least its gap
      after the starting clock. */
  lemma GapBetween(history: seq<real>, start: real, calls: seq<Call>, k: nat)
    requires FollowsGaps(history, start, calls) && k < |history|
    ensures k == 0 ==> history[0] >= start + calls[0].gap
    ensures k > 0 ==> history[k] >= history[k - 1] + calls[k].gap
  {
    assert Before(history, start, k) == if k == 0 then start else history[k - 1];
  }

  lemma FollowsStep(history: seq<real>, start: real, calls: seq<Call>, x: real)
    requires FollowsGaps(history, start, calls) && |history| < |calls|
    requires x >= Last(history, start) + calls[|history|].gap
    ensures FollowsGaps(history + [x], start, calls)
  {
    var h := history + [x];
    assert h[..|history|] == history;
    forall j | 0 <= j < |h|
      ensures h[j] >= Before(h, start, j) + calls[j].gap
    {
      if j < |history| {
        assert h[..j] == history[..j];
        assert Before(h, start, j) == Before(history, start, j);
      }
    }
  }

  lemma LastAppend(history: seq<real>, start: real, x: real)
    ensures Last(history + [x], start) == x
  {
  }

  /** One call of the simulation: the limiter's new list for the call's
      clock reading and the time it records, which keep the simulation's
      invariants. */
  method SimStep(history: seq<real>, times: seq<real>, clock: real, start: real, calls: seq<Call>)
    returns (next: seq<real>, stamp: real)
    requires |history| < |calls| && calls[|history|].gap >= 0.0 && calls[|history|].overrun >= 0.0
    requires Tracks(history, times, clock) && clock == Last(history, start) && FollowsGaps(history, start, calls)
    ensures next == RateLimit(times, clock + calls[|history|].gap, calls[|history|].overrun)
    ensures stamp == next[|next| - 1]
    ensures Tracks(history + [stamp], next, stamp) && stamp == Last(history + [stamp], start)
    ensures FollowsGaps(history + [stamp], start, calls)
  {
    var c := calls[|history|];
    next := RateLimit(times, clock + c.gap, c.overrun);
    stamp := next[|next| - 1];
    StepTracks(history, times, clock, c);
    FollowsStep(history, start, calls, stamp);
    LastAppend(history, start, stamp);
  }

  /** Runs the limiter over a sequence of calls from an empty list and
      returns every recorded admission time. Each call reads the clock its
      gap after the previous admission (the first, its gap after `start`),
      and `GapBetween` unfolds what that means for one admission. */
  method Simulate(start: real, calls: seq<Call>) returns (history: seq<real>)
    requires forall k :: 0 <= k < |calls| ==> calls[k].gap >= 0.0 && calls[k].overrun >= 0.0
    ensures |history| == |calls|
    ensures Sorted(history)
    ensures Spaced(history)
    ensures forall k :: 0 <= k < |history| ==> |Prune(history[..k], history[k])| < CallsPerSecond
    ensures FollowsGaps(history, start, calls)
  {
    var times: seq<real> := [];
    var clock := start;
    history := [];
    for k := 0 to |calls|
      invariant |history| == k
      invariant Tracks(history, times, clock)
      invariant clock == Last(history, start)
      invariant FollowsGaps(history, start, calls)
    {
      var next, stamp := SimStep(history, times, clock, start, calls);
      times, clock, history := next, stamp, history + [stamp];
    }
    forall k | 0 <= k < |history|
      ensures |Prune(history[..k], history[k])| < CallsPerSecond
    {
      RecentBelowCeiling(history, k);
    }
  }
}
