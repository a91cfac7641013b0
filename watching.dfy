/**
 * One tick of the watch loop as a transition of the running snapshot id:
 * resolve the key, do nothing when the resolved path is already running,
 * otherwise refresh the configuration and restore, and adopt the path only
 * when both succeed.
 */
module Watching {
  import opened Wrappers

  /** How a tick ends; every failure is caught at the tick boundary. */
  datatype TickResult = ResolveFailed | UpToDate | RefreshFailed | RestoreFailed | Synchronized

  /**
   * The tick transition from the running id, given the resolved path (None
   * when resolution failed) and whether the refresh and the restore succeeded.
   */
  function Tick(running: Option<string>, resolved: Option<string>, refreshed: bool, restored: bool): (next: (TickResult, Option<string>))
    ensures next.1 != running ==> next.0 == Synchronized && next.1 == resolved
    ensures next.0 == Synchronized <==> resolved.Some? && resolved != running && refreshed && restored
    ensures next.0 == Synchronized ==> next.1 == resolved
    ensures next.0 == UpToDate <==> resolved.Some? && resolved == running
    ensures next.0 == ResolveFailed <==> resolved.None?
    ensures next.0 == RefreshFailed <==> resolved.Some? && resolved != running && !refreshed
  {
    match resolved
    case None => (ResolveFailed, running)
    case Some(path) =>
      if running == Some(path) then (UpToDate, running)
      else if !refreshed then (RefreshFailed, running)
      else if !restored then (RestoreFailed, running)
      else (Synchronized, Some(path))
  }

  /** Whether a tick starts a restore: a new path whose configuration loaded. */
  predicate StartsRestore(running: Option<string>, resolved: Option<string>, refreshed: bool)
  {
    resolved.Some? && resolved != running && refreshed
  }

  /** A failed restore leaves the running id alone, so the next tick on the same path restores again. */
  lemma FailedRestoreIsRetried(running: Option<string>, path: string, refreshedAgain: bool, restoredAgain: bool)
    requires running != Some(path)
    ensures var afterFailure := Tick(running, Some(path), true, false).1;
      && afterFailure == running
      && StartsRestore(afterFailure, Some(path), true)
      && Tick(afterFailure, Some(path), refreshedAgain, restoredAgain).0 != UpToDate
  {
  }

  /**
   * Ticks over a sequence of resolved paths in which every refresh and restore
   * succeeds: the final running id and the number of restores started.
   */
  function Watch(running: Option<string>, paths: seq<string>): (Option<string>, nat)
  {
    if paths == [] then (running, 0)
    else
      var (before, restores) := Watch(running, paths[..|paths| - 1]);
      var last := Some(paths[|paths| - 1]);
      var (result, after) := Tick(before, last, true, true);
      (after, restores + if StartsRestore(before, last, true) then 1 else 0)
  }

  /** The id running before the i-th tick when every tick succeeds. */
  function Previous(running: Option<string>, paths: seq<string>, i: nat): Option<string>
    requires i <= |paths|
  {
    if i == 0 then running else Some(paths[i - 1])
  }

  /** The ticks whose path differs from the one before it. */
  function Changes(running: Option<string>, paths: seq<string>): set<nat>
  {
    set i: nat | i < |paths| && Previous(running, paths, i) != Some(paths[i])
  }

  /** The changes among n+1 paths are those among the first n, plus the last tick if it changes the path. */
  lemma ChangesStep(running: Option<string>, paths: seq<string>)
    requires paths != []
    ensures var n := |paths| - 1;
      |Changes(running, paths)| ==
        |Changes(running, paths[..n])| + if Previous(running, paths, n) != Some(paths[n]) then 1 else 0
  {
    var n := |paths| - 1;
    var prefix := paths[..n];
    var earlier := Changes(running, prefix);
    var all := Changes(running, paths);
    var tail: set<nat> := if Previous(running, paths, n) != Some(paths[n]) then {n} else {};
    forall i: nat | i < n
      ensures (i in earlier) == (i in all)
    {
      assert prefix[i] == paths[i];
      assert i > 0 ==> prefix[i - 1] == paths[i - 1];
    }
    assert all == earlier + tail;
    assert earlier !! tail;
  }

  /** The last tick of a watch adopts its path, and starts a restore when the path changed. */
  lemma WatchStep(running: Option<string>, paths: seq<string>)
    requires paths != []
    ensures var n := |paths| - 1;
      var (before, restores) := Watch(running, paths[..n]);
      Watch(running, paths) == (Some(paths[n]), restores + if before != Some(paths[n]) then 1 else 0)
  {
  }

  /**
   * Watch convergence: with every tick succeeding, the running id ends at the
   * last resolved path, and exactly one restore runs per change of path.
   */
  lemma {:induction false} WatchConverges(running: Option<string>, paths: seq<string>)
    ensures Watch(running, paths).0 == Previous(running, paths, |paths|)
    ensures Watch(running, paths).1 == |Changes(running, paths)|
    decreases |paths|
  {
    if paths != [] {
      var n := |paths| - 1;
      WatchConverges(running, paths[..n]);
      WatchStep(running, paths);
      ChangesStep(running, paths);
      assert Previous(running, paths[..n], n) == Previous(running, paths, n);
    }
  }

  /** The watch scenario A, A, B, B, A from A: two restores, ending on A. */
  lemma WatchScenario()
    ensures Watch(Some("A"), ["A", "A", "B", "B", "A"]) == (Some("A"), 2)
  {
    var paths := ["A", "A", "B", "B", "A"];
    WatchConverges(Some("A"), paths);
    assert Changes(Some("A"), paths) == {2, 4};
  }
}
