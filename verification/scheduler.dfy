/**
 * The automatic-backup schedule: a Java `int` tick counter, incremented at the start of every
 * server tick and compared with `backupDelayMinutes * 1200`, both in 32-bit two's-complement
 * arithmetic.
 */
module Scheduler {

  const TicksPerMinute: int := 1200

  /** A Java `int`. */
  newtype Int32 = x: int | -0x8000_0000 <= x < 0x8000_0000

  /** Java `int` arithmetic: the exact result reduced into the signed 32-bit range. */
  function Wrap(x: int): (r: Int32)
    ensures -0x8000_0000 <= x < 0x8000_0000 ==> r as int == x
    ensures (r as int - x) % 0x1_0000_0000 == 0
  {
    var m := x % 0x1_0000_0000;
    if m >= 0x8000_0000 then (m - 0x1_0000_0000) as Int32 else m as Int32
  }

  /** `backupDelayMinutes * TICKS_PER_MINUTE`. */
  function Threshold(delay: Int32): Int32 {
    Wrap(delay as int * TicksPerMinute)
  }

  /** `ticksSinceLastBackup++` followed by the comparison: does this tick start a backup? */
  predicate Due(ticks: Int32, delay: Int32) {
    Wrap(ticks as int + 1) >= Threshold(delay)
  }

  /** How the backup a tick starts ends: normally, with an IOException, or with an unchecked exception. */
  datatype Run = Succeeded | FailedChecked | FailedUnchecked

  /** The counter after one tick, reset whenever the tick was due, however the backup ended. */
  function CounterAfter(ticks: Int32, delay: Int32): Int32 {
    if Due(ticks, delay) then 0 else Wrap(ticks as int + 1)
  }

  /**
   * The counter after one tick of the handler as written: the reset follows a `try` that catches
   * only IOException, so an unchecked exception from the backup skips it.
   */
  function CounterAfterAsWritten(ticks: Int32, delay: Int32, run: Run): (r: Int32)
    ensures run != FailedUnchecked ==> r == CounterAfter(ticks, delay)
    ensures run == FailedUnchecked ==> r == Wrap(ticks as int + 1)
  {
    if Due(ticks, delay) && run != FailedUnchecked then 0 else Wrap(ticks as int + 1)
  }

  /** The counter after n quiet ticks from `ticks` (corrected handler). */
  function CounterAfterTicks(ticks: Int32, delay: Int32, n: nat): Int32 {
    if n == 0 then ticks else CounterAfter(CounterAfterTicks(ticks, delay, n - 1), delay)
  }

  /** The largest delay whose threshold fits in an `int`. */
  const MaxDelay: int := 0x7FFF_FFFF / TicksPerMinute

  // ---------------------------------------------------------------------------------------------
  // Lemmas
  // ---------------------------------------------------------------------------------------------

  /**
   * For a positive delay the counter stays in [0, delay*1200): each tick adds one, and the tick
   * that reaches delay*1200 starts a backup and resets the counter.
   */
  lemma CounterStep(ticks: Int32, delay: Int32)
    requires 1 <= delay as int <= MaxDelay && 0 <= ticks < Threshold(delay)
    ensures Threshold(delay) as int == delay as int * TicksPerMinute
    ensures Due(ticks, delay) <==> ticks as int + 1 == Threshold(delay) as int
    ensures CounterAfter(ticks, delay) as int == if ticks as int + 1 == Threshold(delay) as int then 0 else ticks as int + 1
    ensures 0 <= CounterAfter(ticks, delay) < Threshold(delay)
  {
  }

  /** From a reset, the counter counts the ticks, and the delay*1200-th tick starts a backup. */
  lemma {:induction false} CounterCounts(delay: Int32, n: nat)
    requires 1 <= delay as int <= MaxDelay && n < Threshold(delay) as int
    ensures CounterAfterTicks(0, delay, n) as int == n
    ensures n > 0 ==> forall k :: 0 <= k < n ==> !Due(CounterAfterTicks(0, delay, k), delay)
  {
    if n > 0 {
      CounterCounts(delay, n - 1);
      CounterStep(CounterAfterTicks(0, delay, n - 1), delay);
    }
  }

  /** Backups start exactly every delay*1200 ticks: the counter is back at 0 after that many. */
  lemma BackupPeriod(delay: Int32)
    requires 1 <= delay as int <= MaxDelay
    ensures Due(CounterAfterTicks(0, delay, Threshold(delay) as nat - 1), delay)
    ensures CounterAfterTicks(0, delay, Threshold(delay) as nat) == 0
  {
    var t := Threshold(delay) as nat;
    CounterStep(0, delay);
    CounterCounts(delay, t - 1);
    CounterStep(CounterAfterTicks(0, delay, t - 1), delay);
  }

  /** A zero or negative delay (whose product does not wrap) makes every tick start a backup. */
  lemma NonPositiveDelayAlwaysDue(ticks: Int32, delay: Int32)
    requires -(0x8000_0000 / TicksPerMinute) <= delay as int <= 0 && 0 <= ticks as int < 0x7FFF_FFFF
    ensures Due(ticks, delay) && CounterAfter(ticks, delay) == 0
  {
  }

  /**
   * As written, a backup that ends with an unchecked exception leaves the counter at the
   * threshold and the exception escapes the tick handler: at delay 10 the tick that reaches 12000
   * fails and the counter stays at 12000, so the next call of the handler is due again.
   */
  lemma UncheckedFailureSkipsReset()
    ensures CounterAfterAsWritten(11999, 10, FailedUnchecked) == 12000
    ensures Due(12000, 10)
    ensures CounterAfter(11999, 10) == 0
  {
    assert Threshold(10) == 12000;
  }

  /**
   * As written, an unchecked failure past the threshold keeps every later call of the handler
   * due, if the server survives the escaping exception and keeps calling it.
   */
  lemma AsWrittenStaysDue(ticks: Int32, delay: Int32)
    requires 1 <= delay as int <= MaxDelay && Threshold(delay) <= ticks && ticks as int + 2 < 0x8000_0000
    ensures Due(ticks, delay)
    ensures var next := CounterAfterAsWritten(ticks, delay, FailedUnchecked);
      next as int == ticks as int + 1 && Due(next, delay)
  {
  }
}
