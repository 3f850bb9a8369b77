/** lib/common/time.hpp: tick arithmetic that survives one wrap-around of the 32-bit counter. */
module Time {
  import opened Common

  /** `time::tick`: a sample of the free-running 32-bit tick counter. */
  type Tick = uint32

  /** `time::infinity`, the largest tick. */
  const Infinity: Tick := 0xFFFF_FFFF

  /**
   * `time::diff(left, right)`: ticks elapsed from `right` to `left`. When the counter wrapped
   * (`left < right`) the source adds `(infinity - right) + 1 + left`; the result type `Tick`
   * obliges Dafny to show that this sum never leaves the 32-bit range.
   */
  function Diff(left: Tick, right: Tick): (d: Tick)
    ensures d == (left - right) % UINT32_LIMIT
    ensures left >= right ==> d == left - right
    ensures left < right ==> d == UINT32_LIMIT - (right - left)
  {
    if left < right then (Infinity - right) + 1 + left else left - right
  }

  /** The plain C++ `uint32` subtraction `a - b`, which wraps modulo 2^32. */
  function WrappingSub(a: Tick, b: Tick): Tick
  {
    (a - b) % UINT32_LIMIT
  }

  /** The elapsed time the USART handler computes with a plain subtraction agrees with `Diff`. */
  lemma WrappingSubIsDiff(now: Tick, start: Tick)
    ensures WrappingSub(now, start) == Diff(now, start)
  {
  }

  /** No time elapses between a tick and itself. */
  lemma DiffSelf(a: Tick)
    ensures Diff(a, a) == 0
  {
  }

  /** Advancing the counter by `d` ticks (wrapping) is measured as exactly `d` ticks. */
  lemma DiffAfterAdvance(start: Tick, d: Tick)
    ensures Diff((start + d) % UINT32_LIMIT, start) == d
  {
    var later := (start + d) % UINT32_LIMIT;
    if start + d < UINT32_LIMIT {
      assert later == start + d;
    } else {
      assert later == start + d - UINT32_LIMIT;
    }
  }
}
