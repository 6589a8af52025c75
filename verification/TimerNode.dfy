/** The timer record of src/base/timernode.h and the clock arithmetic of src/base/timerqueue.cc.
    Instants and durations are whole microseconds. */
module TimerNodes {
  import opened CppArithmetic

  const MICROS_PER_SECOND: int := 1000000

  // The shortest delay the timer descriptor is ever armed with.
  const SHORTEST_DELAY: int := 100

  /** `interval` is in whole seconds: the source stores its float argument in an int. */
  datatype TimerNode = TimerNode(id: int, interval: int, repeat: bool, timer: int)

  datatype TimeSpec = TimeSpec(sec: int, nsec: int)

  function NewNode(id: int, micros: int, now: int, repeat: bool): TimerNode {
    TimerNode(id, Quotient(micros, MICROS_PER_SECOND), repeat, now + micros)
  }

  function IntervalMicros(node: TimerNode): int {
    node.interval * MICROS_PER_SECOND
  }

  /** Line 27 of timernode.h keeps whole seconds only: a repeating timer comes back after the interval it was given
      exactly when that is a whole number of seconds, and up to a second early otherwise. */
  lemma RepeatsAtItsIntervalIff(id: int, micros: nat, now: int, repeat: bool)
    ensures var kept := IntervalMicros(NewNode(id, micros, now, repeat));
      && (kept == micros <==> micros % 1000000 == 0)
      && 0 <= micros - kept < 1000000
  {
  }

  /** The instant at which a descriptor armed at `now` for `timer` becomes readable. */
  function DueAt(timer: int, now: int): (due: int)
    ensures due >= timer && due >= now + 100
    ensures due == timer || due == now + 100
  {
    if timer - now < SHORTEST_DELAY then now + SHORTEST_DELAY else timer
  }

  function TimeFromNow(timer: int, now: int): (ts: TimeSpec)
    ensures ts.sec >= 0 && 0 <= ts.nsec < 1000000000
    ensures now + ts.sec * 1000000 + ts.nsec / 1000 == DueAt(timer, now)
    ensures ts.nsec % 1000 == 0
  {
    var micro := if timer - now < SHORTEST_DELAY then SHORTEST_DELAY else timer - now;
    TimeSpec(micro / MICROS_PER_SECOND, micro % MICROS_PER_SECOND * 1000)
  }
}
