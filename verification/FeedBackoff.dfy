/** The retry schedule of a feed: FeedCoordinator::SchedulerNextUpdate of daemon/feed/FeedCoordinator.cpp. */
module FeedBackoff {
  import opened Integers

  function Pow2(n: nat): (p: nat)
    ensures p >= 1
  {
    if n == 0 then 1 else 2 * Pow2(n - 1)
  }

  /** Seconds to wait after that many failures in a row: one minute, doubled each time, up to the feed's interval. */
  function Delay(failures: nat, interval: int): int {
    if failures == 0 then 0 else Min(60 * Pow2(failures - 1), 60 * interval)
  }

  /** The code's step from the last delay to the next. */
  function NextDelay(lastInterval: int, interval: int): int {
    Min(Max(2 * lastInterval, 60), 60 * interval)
  }

  /** Whatever the interval, even zero or negative, doubling the last delay follows the schedule. */
  lemma DelayDoubles(failures: nat, interval: int)
    ensures NextDelay(Delay(failures, interval), interval) == Delay(failures + 1, interval)
  {
    if failures > 0 {
      assert Pow2(failures) == 2 * Pow2(failures - 1);
    }
  }

  /** One minute after the first failure, then twice as long each time, until the interval is reached. */
  lemma DelayByMinutes(failures: nat, interval: int)
    requires failures >= 1 && interval >= 1
    ensures Delay(1, interval) == 60
    ensures Delay(failures + 1, interval) == Min(2 * Delay(failures, interval), 60 * interval)
    ensures 60 <= Delay(failures, interval) <= Delay(failures + 1, interval) <= 60 * interval
    ensures Delay(0, interval) == 0
  {
    assert Pow2(0) == 1 && Pow2(failures) == 2 * Pow2(failures - 1);
  }
}
