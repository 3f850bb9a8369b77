/**
 * lib/utils/wait.hpp: busy-waiting on a flag of a hardware register, without and with a
 * timeout measured on the system tick counter.
 *
 * The hardware is a finite trace of the values successive reads return; the caller's guarantee
 * that the loop ends (the flag changes, or the timeout expires) is the precondition that some
 * read in the trace ends it. The register is only read: nothing is written.
 */
module Wait {
  import opened Bits
  import opened Time

  /** The loop keeps waiting while the flag still reads as `status`. */
  predicate Waiting(register: bv32, flag: bv32, status: bool)
  {
    IsFlag(register, flag) == status
  }

  /**
   * `wait::until(register, flag, status)`: spins until the flag no longer reads as `status`.
   * `consumed` is how many register reads that took.
   */
  method Until(readings: seq<bv32>, flag: bv32, status: bool) returns (consumed: nat)
    requires exists k :: 0 <= k < |readings| && !Waiting(readings[k], flag, status)
    ensures 0 < consumed <= |readings|
    ensures !Waiting(readings[consumed - 1], flag, status)
    ensures forall k :: 0 <= k < consumed - 1 ==> Waiting(readings[k], flag, status)
  {
    consumed := 1;
    while Waiting(readings[consumed - 1], flag, status)
      invariant 1 <= consumed <= |readings|
      invariant forall k :: 0 <= k < consumed - 1 ==> Waiting(readings[k], flag, status)
      invariant exists k :: consumed - 1 <= k < |readings| && !Waiting(readings[k], flag, status)
      decreases |readings| - consumed
    {
      consumed := consumed + 1;
    }
  }

  /** One pass of the timed loop: the tick counter is read first, then the register. */
  datatype Sample = Sample(counter: Tick, register: bv32)

  predicate TimedOut(s: Sample, start: Tick, timeout: Tick)
  {
    timeout <= Diff(s.counter, start)
  }

  /** A pass after which the timed loop stops: the time is up, or the flag changed. */
  predicate Ends(s: Sample, flag: bv32, status: bool, start: Tick, timeout: Tick)
  {
    TimedOut(s, start, timeout) || !Waiting(s.register, flag, status)
  }

  /**
   * `wait::until(register, flag, status, start, timeout)`: runs at least one pass and stops after
   * the first pass that sees the time up or the flag changed; it reports success only when that
   * pass saw the flag changed and the time not yet up.
   */
  method UntilTimed(samples: seq<Sample>, flag: bv32, status: bool, start: Tick, timeout: Tick)
    returns (ok: bool, consumed: nat)
    requires exists k :: 0 <= k < |samples| && Ends(samples[k], flag, status, start, timeout)
    ensures 0 < consumed <= |samples|
    ensures Ends(samples[consumed - 1], flag, status, start, timeout)
    ensures forall k :: 0 <= k < consumed - 1 ==> !Ends(samples[k], flag, status, start, timeout)
    ensures ok <==> !Waiting(samples[consumed - 1].register, flag, status) && !TimedOut(samples[consumed - 1], start, timeout)
    ensures TimedOut(samples[consumed - 1], start, timeout) ==> !ok
    ensures timeout == 0 ==> !ok && consumed == 1
  {
    var waiting := true;
    var expired := false;
    consumed := 0;
    while waiting && !expired
      invariant 0 <= consumed <= |samples|
      invariant consumed == 0 ==> waiting && !expired
      invariant consumed > 0 ==> expired == TimedOut(samples[consumed - 1], start, timeout)
      invariant consumed > 0 ==> waiting == Waiting(samples[consumed - 1].register, flag, status)
      invariant forall k :: 0 <= k < consumed - 1 ==> !Ends(samples[k], flag, status, start, timeout)
      invariant waiting && !expired ==> exists k :: consumed <= k < |samples| && Ends(samples[k], flag, status, start, timeout)
      decreases |samples| - consumed
    {
      expired := timeout <= Diff(samples[consumed].counter, start);
      waiting := IsFlag(samples[consumed].register, flag) == status;
      consumed := consumed + 1;
    }
    ok := !waiting && !expired;
    if timeout == 0 {
      assert TimedOut(samples[0], start, timeout);
    }
  }
}
