/**
 * The restart bookkeeping of `KeepAlive` (keep_alive.py): a counter of failed
 * pings, a counter of restarts capped at a maximum, and the time of the last
 * restart that enforces a cooldown. The ping's result and the current time are
 * inputs; times are integers in microseconds, datetime's resolution.
 */
module KeepAliveMonitor {
  import opened Wrappers

  const MicrosPerSecond: int := 1000000

  /** What `requests.get(app_url)` produced: a response status, or an exception. */
  datatype PingResult = Status(code: int) | Raised

  /** Successive entries are at least `gap` apart. */
  ghost predicate Spaced(times: seq<int>, gap: int) {
    forall i :: 0 < i < |times| ==> times[i] - times[i - 1] >= gap
  }

  /** With a non-negative gap, spacing of neighbours spaces every pair. */
  lemma {:induction false} SpacedPairwise(times: seq<int>, gap: int, i: nat, j: nat)
    requires gap >= 0 && Spaced(times, gap) && i < j < |times|
    ensures times[j] - times[i] >= gap
  {
    if j > i + 1 {
      SpacedPairwise(times, gap, i, j - 1);
    }
  }

  class KeepAlive {
    const restartThreshold: int
    const maxRestartAttempts: int
    /** The cooldown between restarts, in seconds. */
    const restartCooldown: int

    var failedPings: nat
    var restartAttempts: nat
    /** `None` stands for the initial `datetime.min`. */
    var lastRestartTime: Option<int>
    /** The times of all successful restarts, oldest first. */
    ghost var restarts: seq<int>

    ghost predicate Valid()
      reads this
    {
      && |restarts| == restartAttempts
      && (restartAttempts == 0 || restartAttempts <= maxRestartAttempts)
      && (restarts == [] <==> lastRestartTime.None?)
      && (restarts != [] ==> lastRestartTime == Some(restarts[|restarts| - 1]))
      && Spaced(restarts, restartCooldown * MicrosPerSecond)
    }

    constructor (restartThreshold: int, maxRestartAttempts: int, restartCooldown: int)
      ensures Valid()
      ensures this.restartThreshold == restartThreshold && this.maxRestartAttempts == maxRestartAttempts
      ensures this.restartCooldown == restartCooldown
      ensures failedPings == 0 && restartAttempts == 0 && lastRestartTime == None
    {
      this.restartThreshold := restartThreshold;
      this.maxRestartAttempts := maxRestartAttempts;
      this.restartCooldown := restartCooldown;
      failedPings := 0;
      restartAttempts := 0;
      lastRestartTime := None;
      restarts := [];
    }

    /** The cooldown has not elapsed since the last restart at time `now`. */
    ghost predicate CoolingDown(now: int)
      reads this
    {
      lastRestartTime.Some? && now - lastRestartTime.value < restartCooldown * MicrosPerSecond
    }

    /** A restart at `now` goes ahead: under the cap and out of the cooldown. */
    ghost predicate MayRestart(now: int)
      reads this
    {
      restartAttempts < maxRestartAttempts && !CoolingDown(now)
    }

    /** ping_app: a 200 response clears the failure count, anything else adds one. */
    method PingApp(result: PingResult) returns (alive: bool)
      modifies this`failedPings
      ensures alive <==> result == Status(200)
      ensures failedPings == if alive then 0 else old(failedPings) + 1
    {
      if result.Status? && result.code == 200 {
        failedPings := 0;
        alive := true;
      } else {
        failedPings := failedPings + 1;
        alive := false;
      }
    }

    /** restart_app at time `now`: refuse at the cap or inside the cooldown, otherwise count the restart. */
    method RestartApp(now: int) returns (restarted: bool)
      requires Valid()
      modifies this`restartAttempts, this`lastRestartTime, this`restarts
      ensures Valid()
      ensures restarted == old(MayRestart(now))
      ensures !restarted ==> unchanged(this)
      ensures restarted ==>
        && restartAttempts == old(restartAttempts) + 1
        && lastRestartTime == Some(now)
        && restarts == old(restarts) + [now]
    {
      if restartAttempts >= maxRestartAttempts {
        return false;
      }
      if lastRestartTime.Some? && now - lastRestartTime.value < restartCooldown * MicrosPerSecond {
        return false;
      }
      restartAttempts := restartAttempts + 1;
      lastRestartTime := Some(now);
      restarts := restarts + [now];
      restarted := true;
    }

    /** check_and_restart: ping; once the failure count reaches the threshold, try a restart and clear the count. */
    method CheckAndRestart(result: PingResult, now: int)
      requires Valid()
      modifies this
      ensures Valid()
      ensures restartThreshold >= 1 ==> failedPings < restartThreshold
      ensures result == Status(200) ==>
        && failedPings == 0
        && restartAttempts == old(restartAttempts) && lastRestartTime == old(lastRestartTime) && restarts == old(restarts)
      ensures result != Status(200) && old(failedPings) + 1 < restartThreshold ==>
        && failedPings == old(failedPings) + 1
        && restartAttempts == old(restartAttempts) && lastRestartTime == old(lastRestartTime) && restarts == old(restarts)
      ensures result != Status(200) && old(failedPings) + 1 >= restartThreshold ==>
        && failedPings == 0
        && (old(MayRestart(now)) ==> restarts == old(restarts) + [now] && lastRestartTime == Some(now))
        && (!old(MayRestart(now)) ==> restarts == old(restarts) && lastRestartTime == old(lastRestartTime))
    {
      var alive := PingApp(result);
      if !alive {
        if failedPings >= restartThreshold {
          var _ := RestartApp(now);
          failedPings := 0;
        }
      }
    }
  }

  /** Two successful restarts are at least the cooldown apart, whatever happened in between. */
  lemma RestartsRespectCooldown(k: KeepAlive, i: nat, j: nat)
    requires k.Valid() && k.restartCooldown >= 0 && i < j < |k.restarts|
    ensures k.restarts[j] - k.restarts[i] >= k.restartCooldown * MicrosPerSecond
  {
    SpacedPairwise(k.restarts, k.restartCooldown * MicrosPerSecond, i, j);
  }

  /** Starting from zero, the restart count never passes the cap (when the cap is not negative). */
  lemma RestartsCapped(k: KeepAlive)
    requires k.Valid() && k.maxRestartAttempts >= 0
    ensures k.restartAttempts <= k.maxRestartAttempts
  {
  }
}
