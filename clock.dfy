/**
 * Time as the players see it: the System.Diagnostics.Stopwatch they keep,
 * and the (int) cast with which they turn seconds times frames per second
 * into a frame number. Time is exact: seconds are reals, not doubles.
 */
module Clock {

  /** A stopwatch: the seconds it has accumulated and whether it is running. */
  datatype Stopwatch = Stopwatch(elapsed: real, running: bool)

  /** A fresh stopwatch: stopped at zero. */
  const Fresh: Stopwatch := Stopwatch(0.0, false)

  function Start(w: Stopwatch): (r: Stopwatch)
    ensures r.running && r.elapsed == w.elapsed
  {
    w.(running := true)
  }

  function Stop(w: Stopwatch): (r: Stopwatch)
    ensures !r.running && r.elapsed == w.elapsed
  {
    w.(running := false)
  }

  /** Stopwatch.Reset: stopped, back at zero. */
  function Reset(w: Stopwatch): (r: Stopwatch)
    ensures r == Fresh
  {
    Stopwatch(0.0, false)
  }

  /** Stopwatch.Restart: back at zero and running. */
  function Restart(w: Stopwatch): (r: Stopwatch)
    ensures r.running && r.elapsed == 0.0
  {
    Stopwatch(0.0, true)
  }

  /** `dt` seconds of wall-clock time pass: a running stopwatch accumulates them. */
  function Advance(w: Stopwatch, dt: real): (r: Stopwatch)
    requires dt >= 0.0
    ensures r.running == w.running
    ensures w.elapsed <= r.elapsed
  {
    if w.running then w.(elapsed := w.elapsed + dt) else w
  }

  /** A stopped stopwatch keeps its time however long it waits, so a pause loses nothing. */
  lemma PauseKeepsTime(w: Stopwatch, dt: real)
    requires dt >= 0.0
    ensures Start(Advance(Stop(w), dt)).elapsed == w.elapsed
  {
  }

  /** Waiting in two steps accumulates the same as waiting once. */
  lemma AdvanceTwice(w: Stopwatch, a: real, b: real)
    requires a >= 0.0 && b >= 0.0
    ensures Advance(Advance(w, a), b) == Advance(w, a + b)
  {
  }

  /** C#'s (int) cast of a real: the integer part, rounding toward zero. */
  function Truncate(x: real): (n: int)
    ensures x >= 0.0 ==> n as real <= x < n as real + 1.0
    ensures x < 0.0 ==> n as real - 1.0 < x <= n as real
  {
    if x >= 0.0 then x.Floor else -((-x).Floor)
  }

  /** Truncation never reverses the order of two values. */
  lemma TruncateMonotone(x: real, y: real)
    requires x <= y
    ensures Truncate(x) <= Truncate(y)
  {
  }

  /** A whole number is its own integer part. */
  lemma TruncateWhole(n: int)
    ensures Truncate(n as real) == n
  {
  }

  /** Stopwatch.ElapsedMilliseconds: whole milliseconds elapsed. */
  function ElapsedMilliseconds(w: Stopwatch): (ms: int)
    ensures w.elapsed >= 0.0 ==> ms as real <= w.elapsed * 1000.0 < ms as real + 1.0
  {
    Truncate(w.elapsed * 1000.0)
  }
}
