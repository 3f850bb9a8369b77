/**
 * lib/utils/sleep.hpp: millisecond busy sleep on the system tick counter, and the file's own
 * copies of the two `until` polling loops. Those copies are the same code as the ones in
 * lib/utils/wait.hpp, so they run the loops modelled in `Wait` and promise the same.
 */
module Sleep {
  import opened Bits
  import opened Time
  import Wait

  /**
   * `sleep::ms(time)`: samples the tick counter as `start`
   * (`counters[0]`), then reads it until more than `time` ticks have elapsed since `start`.
   * `consumed` is how many counter reads that took, the first included.
   */
  method Ms(time: Tick, counters: seq<Tick>) returns (consumed: nat)
    requires exists k :: 1 <= k < |counters| && Diff(counters[k], counters[0]) > time
    ensures 1 < consumed <= |counters|
    ensures Diff(counters[consumed - 1], counters[0]) > time
    ensures forall k :: 1 <= k < consumed - 1 ==> Diff(counters[k], counters[0]) <= time
  {
    var start := counters[0];
    consumed := 2;
    while Diff(counters[consumed - 1], start) <= time
      invariant 2 <= consumed <= |counters|
      invariant forall k :: 1 <= k < consumed - 1 ==> Diff(counters[k], start) <= time
      invariant exists k :: consumed - 1 <= k < |counters| && Diff(counters[k], start) > time
      decreases |counters| - consumed
    {
      consumed := consumed + 1;
    }
  }

  /** `sleep::until(reg, flag, status)`: spins while the flag reads as `status`; it writes nothing. */
  method Until(readings: seq<bv32>, flag: bv32, status: bool) returns (consumed: nat)
    requires exists k :: 0 <= k < |readings| && !Wait.Waiting(readings[k], flag, status)
    ensures 0 < consumed <= |readings|
    ensures IsFlag(readings[consumed - 1], flag) != status
    ensures forall k :: 0 <= k < consumed - 1 ==> IsFlag(readings[k], flag) == status
  {
    consumed := Wait.Until(readings, flag, status);
  }

  /**
   * `sleep::until(reg, flag, status, start, timeout)`: succeeds exactly when the flag left
   * `status` on a sample taken before `timeout` ticks had elapsed since `start`; with a zero
   * timeout it always fails, on the first sample.
   */
  method UntilTimed(samples: seq<Wait.Sample>, flag: bv32, status: bool, start: Tick, timeout: Tick)
    returns (ok: bool, consumed: nat)
    requires exists k :: 0 <= k < |samples| && Wait.Ends(samples[k], flag, status, start, timeout)
    ensures 0 < consumed <= |samples|
    ensures forall k :: 0 <= k < consumed - 1 ==>
      IsFlag(samples[k].register, flag) == status && Diff(samples[k].counter, start) < timeout
    ensures ok <==> IsFlag(samples[consumed - 1].register, flag) != status
                    && Diff(samples[consumed - 1].counter, start) < timeout
    ensures !ok ==> IsFlag(samples[consumed - 1].register, flag) == status
                    || timeout <= Diff(samples[consumed - 1].counter, start)
    ensures timeout == 0 ==> !ok && consumed == 1
  {
    ok, consumed := Wait.UntilTimed(samples, flag, status, start, timeout);
  }
}
