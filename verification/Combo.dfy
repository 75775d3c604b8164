/**
  Values shared by the combo trainer: keys, timestamps, steps, captured
  events and the replayed input stream that stands in for the keyboard hook.
 */
module Combo {

  /** A key as the keyboard library names it ("a", "ctrl", ...). */
  type Key = string

  /** A timestamp or a duration in integer ticks (one tick = one millisecond). */
  type Tick = int

  /** Two presses at most this far apart count as one simultaneous press (0.1 s). */
  const SimultaneityTolerance: Tick := 100

  /** One step of the combo: the keys as a set, the time allowed, and whether the keys go together. */
  datatype ComboStep = ComboStep(keys: set<Key>, maxDelay: Tick, simultaneous: bool)

  /** One entry of the event log: which key went down, and when. */
  datatype KeyEvent = KeyEvent(key: Key, time: Tick)

  /** The kinds of keyboard event the hook delivers. */
  datatype EventType = KeyDown | KeyUp

  /**
    What happens while the evaluation loop waits: a key-down captured at
    `time`, or a request to stop training issued at `time`.
   */
  datatype Input = Press(key: Key, time: Tick) | Stop(time: Tick)

  /**
    A step the match rule can evaluate without failing: a simultaneous step
    with no keys would take the maximum of no press times.
   */
  predicate Evaluable(step: ComboStep)
  {
    step.simultaneous ==> step.keys != {}
  }
}
