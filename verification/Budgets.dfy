/** Restart budgets: at most six recoveries an hour and three watchdog restarts
    in half an hour, kept as lists of admission times. */
module Budgets {
  import opened Text
  import opened Config

  const RECOVERY_LIMIT: nat := 6
  const WATCHDOG_LIMIT: nat := 3
  const WATCHDOG_WINDOW: Time := 30 * MINUTE

  /** The entries after the cutoff, in order. */
  function Recent(runs: seq<Time>, cutoff: Time): (r: seq<Time>)
    ensures |r| <= |runs|
  {
    if runs == [] then []
    else if runs[0] > cutoff then [runs[0]] + Recent(runs[1..], cutoff)
    else Recent(runs[1..], cutoff)
  }

  lemma {:induction false} RecentAppend(runs: seq<Time>, at: Time, cutoff: Time)
    ensures Recent(runs + [at], cutoff) == Recent(runs, cutoff) + if at > cutoff then [at] else []
  {
    if runs == [] {
      assert (runs + [at])[1..] == [];
    } else {
      assert (runs + [at])[1..] == runs[1..] + [at];
      RecentAppend(runs[1..], at, cutoff);
    }
  }

  /** The positions of the entries after the cutoff. */
  ghost function LaterThan(runs: seq<Time>, cutoff: Time): set<int> {
    set i | 0 <= i < |runs| && runs[i] > cutoff
  }

  lemma {:induction false} RecentCounts(runs: seq<Time>, cutoff: Time)
    ensures |Recent(runs, cutoff)| == |LaterThan(runs, cutoff)|
  {
    if runs != [] {
      var n := |runs| - 1;
      assert runs == runs[..n] + [runs[n]];
      RecentCounts(runs[..n], cutoff);
      RecentAppend(runs[..n], runs[n], cutoff);
      assert LaterThan(runs, cutoff) == LaterThan(runs[..n], cutoff) + if runs[n] > cutoff then {n} else {};
    }
  }

  class RestartBudget {
    var recoveryRuns: seq<Time>
    var backoffUntil: Option<Time>
    var watchdogRuns: seq<Time>
    var suppressedUntil: Option<Time>
    var windowCount: nat

    constructor ()
      ensures recoveryRuns == [] && watchdogRuns == [] && backoffUntil.None? && suppressedUntil.None?
    {
      recoveryRuns, watchdogRuns, windowCount := [], [], 0;
      backoffUntil, suppressedUntil := None, None;
    }

    /** Backoff and budget checks of recover; the time until which it refuses. */
    method AdmitRecovery(now: Time) returns (refused: Option<Time>)
      modifies this`recoveryRuns, this`backoffUntil
      ensures var held := old(backoffUntil).Some? && now < old(backoffUntil).value;
        var (ok, runs) := Attempt(old(recoveryRuns), now, HOUR, RECOVERY_LIMIT);
        if held then refused == old(backoffUntil) == backoffUntil && recoveryRuns == old(recoveryRuns)
        else if ok then refused == None && recoveryRuns == runs && backoffUntil == old(backoffUntil)
        else refused == backoffUntil == Some(runs[0] + HOUR) && recoveryRuns == runs
      ensures !(old(backoffUntil).Some? && now < old(backoffUntil).value) ==>
        && (refused.None? <==> |LaterThan(old(recoveryRuns), now - 3600 * SECOND)| < 6)
        && (refused.None? ==> recoveryRuns != [] && recoveryRuns[|recoveryRuns| - 1] == now)
    {
      RecentCounts(recoveryRuns, now - HOUR);
      if backoffUntil.Some? && now < backoffUntil.value { return backoffUntil; }
      var cutoff := now - HOUR;
      var runs, past := [], recoveryRuns;
      for i := 0 to |past|
        invariant runs == Recent(past[..i], cutoff) && backoffUntil == old(backoffUntil)
      {
        assert past[..i + 1] == past[..i] + [past[i]];
        RecentAppend(past[..i], past[i], cutoff);
        if past[i] > cutoff { runs := runs + [past[i]]; }
      }
      assert past[..|past|] == past;
      recoveryRuns := runs;
      if |runs| >= RECOVERY_LIMIT {
        backoffUntil := Some(runs[0] + HOUR);
        return backoffUntil;
      }
      recoveryRuns := recoveryRuns + [now];
      return None;
    }

    /** Whether the watchdog may restart the browser now. */
    method WatchdogRestartAllowed(now: Time) returns (allowed: bool)
      modifies this`watchdogRuns, this`suppressedUntil, this`windowCount
      ensures var held := old(suppressedUntil).Some? && now < old(suppressedUntil).value;
        var (ok, runs) := Attempt(old(watchdogRuns), now, WATCHDOG_WINDOW, WATCHDOG_LIMIT);
        if held then !allowed && watchdogRuns == old(watchdogRuns) && suppressedUntil == old(suppressedUntil) && windowCount == old(windowCount)
        else allowed == ok && watchdogRuns == runs && windowCount == |runs|
             && suppressedUntil == if ok then None else Some(now + WATCHDOG_WINDOW)
      ensures !(old(suppressedUntil).Some? && now < old(suppressedUntil).value) ==>
        && (allowed <==> |LaterThan(old(watchdogRuns), now - 1800 * SECOND)| < 3)
        && (allowed ==> watchdogRuns != [] && watchdogRuns[|watchdogRuns| - 1] == now)
        && suppressedUntil == if allowed then None else Some(now + 1800 * SECOND)
    {
      RecentCounts(watchdogRuns, now - WATCHDOG_WINDOW);
      if suppressedUntil.Some? && now < suppressedUntil.value { return false; }
      var cutoff := now - WATCHDOG_WINDOW;
      var recent, past := [], watchdogRuns;
      for i := 0 to |past|
        invariant recent == Recent(past[..i], cutoff)
      {
        assert past[..i + 1] == past[..i] + [past[i]];
        RecentAppend(past[..i], past[i], cutoff);
        if past[i] > cutoff { recent := recent + [past[i]]; }
      }
      assert past[..|past|] == past;
      watchdogRuns, windowCount := recent, |recent|;
      if |recent| >= WATCHDOG_LIMIT {
        suppressedUntil := Some(now + WATCHDOG_WINDOW);
        return false;
      }
      watchdogRuns := watchdogRuns + [now];
      windowCount, suppressedUntil := |watchdogRuns|, None;
      return true;
    }
  }

  /** One admission decision: whether it is granted, and the list afterwards. */
  function Attempt(runs: seq<Time>, now: Time, window: Time, limit: nat): (bool, seq<Time>) {
    var recent := Recent(runs, now - window);
    if |recent| >= limit then (false, recent) else (true, recent + [now])
  }

  // ------------------------------------------------------------ whole runs

  /** An attempt happens at a time, and may be held back before the budget is
      even looked at (backoff, suppression). */
  datatype Try = Try(now: Time, held: bool)

  ghost predicate Ordered(tries: seq<Try>) {
    forall i, j :: 0 <= i < j < |tries| ==> tries[i].now <= tries[j].now
  }

  /** All admission times of a run, after those in `admitted`. */
  ghost function Admitted(tries: seq<Try>, runs: seq<Time>, admitted: seq<Time>, window: Time, limit: nat): seq<Time> {
    if tries == [] then admitted
    else if tries[0].held then Admitted(tries[1..], runs, admitted, window, limit)
    else
      var (ok, next) := Attempt(runs, tries[0].now, window, limit);
      Admitted(tries[1..], next, if ok then admitted + [tries[0].now] else admitted, window, limit)
  }

  /** Any `limit` + 1 consecutive admissions span at least the window. */
  ghost predicate Spaced(admitted: seq<Time>, window: Time, limit: nat) {
    && Sorted(admitted)
    && forall i :: 0 <= i && i + limit < |admitted| ==> admitted[i + limit] - admitted[i] >= window
  }

  /** The list holds the latest admissions, and all that still matter. */
  ghost predicate Tracks(runs: seq<Time>, admitted: seq<Time>, now: Time, window: Time, limit: nat) {
    && |runs| <= |admitted| && |runs| <= limit && runs == admitted[|admitted| - |runs|..]
    && (forall at <- admitted :: at <= now)
    && forall i :: 0 <= i < |admitted| - |runs| ==> admitted[i] <= now - window
  }

  lemma {:induction false} RecentIsSuffix(runs: seq<Time>, cutoff: Time)
    requires Sorted(runs)
    ensures var n := |runs| - |Recent(runs, cutoff)|;
      Recent(runs, cutoff) == runs[n..] && (forall i :: 0 <= i < n ==> runs[i] <= cutoff) && forall i :: n <= i < |runs| ==> runs[i] > cutoff
  {
    if runs != [] {
      if runs[0] > cutoff {
        AllRecent(runs, cutoff);
      } else {
        var rest := runs[1..];
        RecentIsSuffix(rest, cutoff);
        var n := |rest| - |Recent(rest, cutoff)|;
        assert runs[n + 1..] == rest[n..];
        assert forall i :: 0 < i < |runs| ==> runs[i] == rest[i - 1];
        hide Recent;
      }
    }
  }

  lemma {:induction false} AllRecent(runs: seq<Time>, cutoff: Time)
    requires forall i :: 0 <= i < |runs| ==> runs[i] > cutoff
    ensures Recent(runs, cutoff) == runs
  {
    if runs != [] { AllRecent(runs[1..], cutoff); }
  }

  lemma RecentKeepsTrack(runs: seq<Time>, admitted: seq<Time>, before: Time, now: Time, window: Time, limit: nat)
    requires before <= now && Sorted(runs) && Tracks(runs, admitted, before, window, limit)
    ensures Tracks(Recent(runs, now - window), admitted, now, window, limit)
  {
    RecentIsSuffix(runs, now - window);
    var recent := Recent(runs, now - window);
    hide Recent, Sorted;
    var m, k := |runs| - |recent|, |admitted| - |runs|;
    assert admitted[k..][m..] == admitted[k + m..];
    forall i | 0 <= i < k + m ensures admitted[i] <= now - window {
      if i >= k { assert admitted[i] == runs[i - k]; }
    }
  }

  /** An admission granted while fewer than `limit` are recent is far enough
      from the one `limit` places before it. */
  lemma AdmitKeepsSpace(recent: seq<Time>, admitted: seq<Time>, now: Time, window: Time, limit: nat)
    requires limit > 0 && window > 0 && Spaced(admitted, window, limit)
    requires Tracks(recent, admitted, now, window, limit) && |recent| < limit
    ensures Spaced(admitted + [now], window, limit) && Tracks(recent + [now], admitted + [now], now, window, limit)
  {
    var after := admitted + [now];
    assert forall i :: 0 <= i < |admitted| ==> admitted[i] in admitted;
    assert after[|after| - |recent + [now]|..] == recent + [now];
  }

  lemma AttemptKeepsTrack(runs: seq<Time>, admitted: seq<Time>, before: Time, now: Time, window: Time, limit: nat)
    requires limit > 0 && window > 0 && before <= now
    requires Spaced(admitted, window, limit) && Tracks(runs, admitted, before, window, limit)
    ensures var (ok, next) := Attempt(runs, now, window, limit);
      var after := if ok then admitted + [now] else admitted;
      Spaced(after, window, limit) && Tracks(next, after, now, window, limit)
  {
    RecentKeepsTrack(runs, admitted, before, now, window, limit);
    var recent := Recent(runs, now - window);
    hide Recent, Spaced, Tracks;
    if |recent| < limit {
      AdmitKeepsSpace(recent, admitted, now, window, limit);
    }
  }

  lemma {:induction false} AdmissionsAreSpaced(tries: seq<Try>, runs: seq<Time>, admitted: seq<Time>, before: Time, window: Time, limit: nat)
    requires limit > 0 && window > 0 && Ordered(tries) && (forall try <- tries :: before <= try.now)
    requires Spaced(admitted, window, limit) && Tracks(runs, admitted, before, window, limit)
    ensures Spaced(Admitted(tries, runs, admitted, window, limit), window, limit)
  {
    if tries != [] {
      var now := tries[0].now;
      assert forall try <- tries[1..] :: now <= try.now;
      if tries[0].held {
        AdmissionsAreSpaced(tries[1..], runs, admitted, before, window, limit);
      } else {
        AttemptKeepsTrack(runs, admitted, before, now, window, limit);
        var (ok, next) := Attempt(runs, now, window, limit);
        AdmissionsAreSpaced(tries[1..], next, if ok then admitted + [now] else admitted, now, window, limit);
      }
    }
  }

  /** The entries that matter are those of the whole history. */
  lemma TrackedCount(runs: seq<Time>, admitted: seq<Time>, before: Time, now: Time, window: Time, limit: nat)
    requires before <= now && Sorted(runs) && Tracks(runs, admitted, before, window, limit)
    ensures |Recent(runs, now - window)| == |LaterThan(admitted, now - window)|
  {
    RecentKeepsTrack(runs, admitted, before, now, window, limit);
    RecentIsSuffix(runs, now - window);
    var recent := Recent(runs, now - window);
    hide Recent, Sorted;
    assert forall i :: 0 <= i < |recent| ==> recent[i] > now - window;
    SuffixCount(admitted, recent, now - window);
  }

  lemma SuffixCount(admitted: seq<Time>, recent: seq<Time>, cutoff: Time)
    requires |recent| <= |admitted| && recent == admitted[|admitted| - |recent|..]
    requires forall i :: 0 <= i < |admitted| - |recent| ==> admitted[i] <= cutoff
    requires forall i :: 0 <= i < |recent| ==> recent[i] > cutoff
    ensures |LaterThan(admitted, cutoff)| == |recent|
  {
    var m := |admitted| - |recent|;
    assert forall i :: m <= i < |admitted| ==> admitted[i] == recent[i - m];
    assert LaterThan(admitted, cutoff) == Interval(m, |recent|);
  }

  /** After any run of attempts the next one that is not held back is granted if
      and only if fewer than `limit` of all admissions so far lie in the window. */
  lemma {:induction false} NextIsAdmittedExactly(tries: seq<Try>, runs: seq<Time>, admitted: seq<Time>, before: Time, now: Time, window: Time, limit: nat)
    requires limit > 0 && window > 0 && Ordered(tries) && before <= now && (forall try <- tries :: before <= try.now <= now)
    requires Spaced(admitted, window, limit) && Tracks(runs, admitted, before, window, limit)
    ensures var past := Admitted(tries, runs, admitted, window, limit);
      Admitted(tries + [Try(now, false)], runs, admitted, window, limit)
        == past + if |LaterThan(past, now - window)| < limit then [now] else []
  {
    if tries == [] {
      TrackedSorted(runs, admitted, before, window, limit);
      TrackedCount(runs, admitted, before, now, window, limit);
      assert tries + [Try(now, false)] == [Try(now, false)] && [Try(now, false)][1..] == [];
    } else {
      var at := tries[0].now;
      assert (tries + [Try(now, false)])[1..] == tries[1..] + [Try(now, false)];
      assert forall try <- tries[1..] :: try in tries && at <= try.now;
      hide LaterThan, Tracks, Spaced, Recent;
      if tries[0].held {
        NextIsAdmittedExactly(tries[1..], runs, admitted, before, now, window, limit);
      } else {
        AttemptKeepsTrack(runs, admitted, before, at, window, limit);
        var (ok, next) := Attempt(runs, at, window, limit);
        NextIsAdmittedExactly(tries[1..], next, if ok then admitted + [at] else admitted, at, now, window, limit);
      }
    }
  }

  lemma TrackedSorted(runs: seq<Time>, admitted: seq<Time>, before: Time, window: Time, limit: nat)
    requires Spaced(admitted, window, limit) && Tracks(runs, admitted, before, window, limit)
    ensures Sorted(runs)
  {
  }

  ghost function InWindow(admitted: seq<Time>, from: Time, to: Time): set<int> {
    set i | 0 <= i < |admitted| && from <= admitted[i] < to
  }

  ghost function Interval(lo: int, n: nat): (r: set<int>)
    ensures |r| == n && forall i :: i in r <==> lo <= i < lo + n
  {
    if n == 0 then {} else Interval(lo, n - 1) + {lo + n - 1}
  }

  lemma FarApart(admitted: seq<Time>, window: Time, limit: nat, i: int, j: int)
    requires Spaced(admitted, window, limit) && 0 <= i < |admitted| && 0 <= j < |admitted|
    ensures i + limit <= j ==> admitted[j] - admitted[i] >= window
  {
    assert i + limit <= j ==> admitted[i + limit] <= admitted[j];
  }

  lemma WindowHoldsFew(admitted: seq<Time>, window: Time, limit: nat, from: Time)
    requires limit > 0 && Spaced(admitted, window, limit)
    ensures |InWindow(admitted, from, from + window)| <= limit
  {
    var inside := InWindow(admitted, from, from + window);
    if inside != {} {
      var lo := FirstInside(admitted, from, from + window);
      forall i <- inside ensures lo <= i < lo + limit {
        FarApart(admitted, window, limit, lo, i);
      }
      SubsetSize(inside, Interval(lo, limit));
    }
  }

  lemma SubsetSize(a: set<int>, b: set<int>)
    requires a <= b
    ensures |a| <= |b|
  {
    assert b == a + (b - a);
  }

  lemma FirstInside(admitted: seq<Time>, from: Time, to: Time) returns (lo: int)
    requires InWindow(admitted, from, to) != {}
    ensures lo in InWindow(admitted, from, to) && forall i <- InWindow(admitted, from, to) :: lo <= i
  {
    lo :| lo in InWindow(admitted, from, to);
    while exists i :: i in InWindow(admitted, from, to) && i < lo
      invariant lo in InWindow(admitted, from, to)
      decreases lo
    {
      var j :| j in InWindow(admitted, from, to) && j < lo;
      lo := j;
    }
  }

  /** However often recoveries are asked for, and whatever backoff comes on top,
      no half-open hour sees more than six of them. */
  lemma SixRecoveriesAnHour(tries: seq<Try>, from: Time)
    requires Ordered(tries)
    ensures var admitted := Admitted(tries, [], [], HOUR, RECOVERY_LIMIT);
      |(set i | 0 <= i < |admitted| && from <= admitted[i] < from + 3600 * SECOND)| <= 6
  {
    var before := if tries == [] then 0 else tries[0].now;
    AdmissionsAreSpaced(tries, [], [], before, HOUR, RECOVERY_LIMIT);
    WindowHoldsFew(Admitted(tries, [], [], HOUR, RECOVERY_LIMIT), HOUR, RECOVERY_LIMIT, from);
  }

  lemma ThreeWatchdogRestartsInHalfAnHour(tries: seq<Try>, from: Time)
    requires Ordered(tries)
    ensures var admitted := Admitted(tries, [], [], WATCHDOG_WINDOW, WATCHDOG_LIMIT);
      |(set i | 0 <= i < |admitted| && from <= admitted[i] < from + 1800 * SECOND)| <= 3
  {
    var before := if tries == [] then 0 else tries[0].now;
    AdmissionsAreSpaced(tries, [], [], before, WATCHDOG_WINDOW, WATCHDOG_LIMIT);
    WindowHoldsFew(Admitted(tries, [], [], WATCHDOG_WINDOW, WATCHDOG_LIMIT), WATCHDOG_WINDOW, WATCHDOG_LIMIT, from);
  }

  /** The deadline reported with a refusal is exact: the budget alone refuses
      before it and no longer at or after it. */
  lemma DeadlineIsExact(runs: seq<Time>, now: Time, later: Time)
    requires Sorted(runs) && |runs| <= RECOVERY_LIMIT && now <= later
    requires !Attempt(runs, now, HOUR, RECOVERY_LIMIT).0
    ensures var deadline := Attempt(runs, now, HOUR, RECOVERY_LIMIT).1[0] + HOUR;
      Attempt(runs, later, HOUR, RECOVERY_LIMIT).0 <==> later >= deadline
  {
    RecentIsSuffix(runs, now - HOUR);
    RecentIsSuffix(runs, later - HOUR);
  }
}
