# Combo trainer — a Dafny model

This project models `ComboTrainer` from `combo_training.py`, a keyboard combo
trainer. The trainee is given a sequence of combo steps. Each step names a set
of keys, a time allowance, and whether the keys must go down together.

While training is on, a capture callback writes two things on every key-down:
- an event log of `(key, time)` entries;
- a last-press map from key to time.

An evaluation loop takes the steps in order. For each step it waits until the
match rule holds or the step's deadline passes:
- A simultaneous step needs every key pressed since the step began, with all
  press times within 0.1 s of each other.
- Any other step is satisfied by any one of its keys.

Resolving before the deadline advances to the next step. Otherwise the
attempt's presses are erased from the log and the map, and the step is tried
again.

The model is split into four modules:
- `Combo.dfy` holds keys, integer ticks (1 tick = 1 ms, so the 0.1 s
  tolerance is 100 ticks), steps, log entries, and the replayed input stream.
- `StepMatcher.dfy` holds the pressed-key set, the simultaneity test and the
  match rule, as functions with lemmas.
- `EventLog.dfy` holds truncation of the log, reset of the last-press map, and
  the effect of a stream of key-downs on both, as functions with lemmas.
- `Trainer.dfy` holds the class `ComboTrainer`. Its fields are the step list,
  the step index, the start time, the training flag, the log and the map. Each
  operation that changes them in place is a method with a `modifies` clause
  and a postcondition giving the new state.

The keyboard hook and the busy-wait are replaced by a finite list of inputs,
each timestamped, which `AwaitStep` replays. An input is either a key-down or
a stop request. The match rule is evaluated when the step begins and again
after each input. Inputs are taken in list order, and the next one is
delivered only while:
- the step is unmatched;
- training is on;
- that input is earlier than the deadline.

When the next input is dated at or after the deadline, or none is left, the
clock reaches the deadline.

Behaviour of the code that the model keeps as written:
- **A stop request before the deadline counts as a success.** The wait ends
  because training is off, the resolution only compares the clock with the
  deadline, and the step index advances (`Trainer.ComboTrainer.RunStep`).
- **The match rule cannot evaluate a simultaneous step with no keys.** The
  spread of no press times is undefined and the code raises. Adding a step
  does no validation, so the match rule and the methods that evaluate it
  require `Evaluable(step)`.
- **A failed attempt forgets earlier presses of re-pressed keys.** If a key
  pressed before the step began is pressed again during a failed attempt, its
  earlier press time is overwritten. The reset then deletes the entry
  altogether (`EventLog.FailedAttemptReset`).
- **A key with no recorded press counts as pressed at time 0.** It counts as
  pressed since the step began only when the step begins at or before tick 0.

Other behaviour of the code that the model states:
- Adding a step accepts an empty key set and a non-positive time allowance.
  The simultaneity flag defaults to off, as in the code.
- Starting with no steps prints an error and returns without turning training
  on.
- The step index, the log and the map are reset when the evaluation loop
  begins (`BeginRun`), not when training is started.

## Model

| member | source | states |
|---|---|---|
| Trainer.ComboTrainer.constructor | combo_training.py:8-15 | a new trainer has no steps, step index 0, start time 0, training off, an empty log and an empty map |
| Trainer.ComboTrainer.AddComboStep | combo_training.py:17-27 | appends exactly one step at the end, with the keys collected into a set, the given allowance, and the flag (off when omitted); the length grows by one and earlier steps are unchanged |
| Trainer.ComboTrainer.KeyEventHandler | combo_training.py:29-34 | while training, a key-down appends exactly `(name, now)` to the log and sets the key's entry to `now`; otherwise nothing changes; every other key's entry is unchanged in either case |
| Trainer.ComboTrainer.CheckSimultaneousPress | combo_training.py:36-46 | the result is true iff every required key has a recorded press and no two of those presses are more than `maxDelay` apart |
| StepMatcher.SpreadWithinTolerance | combo_training.py:38-46 | for a list holding exactly the required keys' press times, latest minus earliest is within the tolerance iff every pair of presses is within it |
| StepMatcher.MaxTime | combo_training.py:46 | the result is one of the press times and none is larger |
| StepMatcher.MinTime | combo_training.py:46 | the result is one of the press times and none is smaller |
| StepMatcher.SimultaneityBoundary | combo_training.py:46 | the tolerance is inclusive: two keys pressed exactly 100 ticks apart match a simultaneous step, and 101 ticks apart do not |
| StepMatcher.TimeOrZero | combo_training.py:64 | the recorded press time of a key, or 0 when it has none (the `.get(k, 0)` of the comprehension); its use is stated by `PressedKeys` |
| StepMatcher.PressedKeys | combo_training.py:64 | the result is a subset of the required keys holding exactly those whose last press is at or after the step start, a key with no press counting as time 0 |
| StepMatcher.Matches | combo_training.py:64-73 | the match rule; a match always has at least one required key pressed since the step began, and a simultaneous match has all of them; `AnyOfRule` and `AllWithinToleranceRule` give its meaning in both directions |
| StepMatcher.AnyOfRule | combo_training.py:71-73 | a step that is not simultaneous matches iff at least one required key was pressed since the step began |
| StepMatcher.AllWithinToleranceRule | combo_training.py:67-70 | a simultaneous step matches iff every required key was pressed since the step began and every pair of those presses is at most 100 ticks apart |
| StepMatcher.StalePressesNeverMatch | combo_training.py:64-73 | when the step begins after tick 0 and every recorded press is older than the step, no step matches |
| Trainer.ComboTrainer.StepMatched | combo_training.py:64-73 | the result is the match rule evaluated on the current last-press map |
| Trainer.ComboTrainer.BeginRun | combo_training.py:51-54 | a run starts at step 0 with the given start time, an empty log and an empty map |
| Trainer.ComboTrainer.Deliver | combo_training.py:29-34 | delivering a key-down records it through the capture callback and keeps training on; delivering a stop request turns training off through `StopTraining` (lines 121-123) and records nothing |
| Trainer.UnmatchedBefore | combo_training.py:63-73 | the wait had not ended on a match before any of the first `n` inputs was replayed; `UnmatchedBeforeAll` spells it out input by input |
| Trainer.UnmatchedBeforeAll | combo_training.py:63-73 | the step did not match the last-press map as it stood before each of the first `n` inputs was replayed |
| Trainer.ComboTrainer.AwaitStep | combo_training.py:59-73 | it replays only inputs before the deadline, and never one after a stop request; the log gains exactly the replayed key-downs; the map is the old map overwritten by them in order; the step was unmatched before every replayed input; the wait ends before the deadline iff the step matched or training was stopped, at the time of the last replayed input; otherwise it ends at the deadline, the next input (if any) being dated at or after it |
| Trainer.ComboTrainer.RunStep | combo_training.py:56-84 | one attempt at the current step: on resolving before the deadline the step index rises by exactly one and the presses are kept; otherwise the index is unchanged and the log and map are the attempt's result reset at the step start; the step list never changes and the index stays within it |
| Trainer.ComboTrainer.ResetStep | combo_training.py:86-92 | the log becomes exactly the old log filtered to events before the step start, in order; the map keeps exactly the entries older than the step start, with their values unchanged |
| Trainer.ComboTrainer.RunComboTraining | combo_training.py:48-84 | the loop never runs past the last step; the step list is unchanged; every success is one attempt; when it stops with training still on and steps left, the attempt bound was reached; with training off it only resets the run |
| Trainer.ComboTrainer.StartTraining | combo_training.py:109-119 | with no steps, the training flag is left as it was; otherwise training is on |
| Trainer.ComboTrainer.StopTraining | combo_training.py:121-127 | training is off afterwards |
| EventLog.BeforeCutoff | combo_training.py:89 | the log truncated at the cutoff, never longer than the log; `BeforeCutoffMembers` and the lemmas below give its meaning |
| EventLog.BeforeCutoffMembers | combo_training.py:89 | the kept events are exactly the log's events before the cutoff |
| EventLog.BeforeCutoffCons | combo_training.py:89 | the first event of a log is kept exactly when it is before the cutoff, and the rest is truncated on its own |
| EventLog.BeforeCutoffIsSubsequence | combo_training.py:89 | the kept events appear in their original order |
| EventLog.BeforeCutoffAppend | combo_training.py:89 | filtering a log made of two parts filters each part in place |
| EventLog.BeforeCutoffIdempotent | combo_training.py:89 | filtering twice at the same cutoff gives the same log as filtering once |
| EventLog.BeforeCutoffKeepsEarlyLog | combo_training.py:89 | a log entirely before the cutoff is unchanged |
| EventLog.BeforeCutoffDropsLateLog | combo_training.py:89 | a log entirely at or after the cutoff becomes empty |
| EventLog.ResetTimes | combo_training.py:90-92 | the kept map has no entry at or after the cutoff, and every entry before it is kept with its value |
| EventLog.ResetTimesIdempotent | combo_training.py:90-92 | resetting twice at the same cutoff gives the same map as resetting once |
| EventLog.Recorded | combo_training.py:33 | the log entries the first `n` replayed inputs append: never more than `n`, and exactly `n` when all of them are key-downs; `RecordedPresses` states which |
| EventLog.RecordedPresses | combo_training.py:31-33 | the events a replay records are exactly the key-downs among the inputs replayed, with their keys and times |
| EventLog.LatestTimes | combo_training.py:34 | the last-press map after a stream of key-downs overwrote it in order; the last key-down holds its key's entry; the four `LatestTimes*` lemmas below give the rest |
| EventLog.ReplayTimes | combo_training.py:34 | the last-press map after the key-downs among the first `n` inputs; `ReplayTimesIsLatest` ties it to `LatestTimes` |
| EventLog.ReplayTimesIsLatest | combo_training.py:34 | replaying the first `n` inputs writes the map exactly as `LatestTimes` over the events `Recorded` gives |
| EventLog.LatestTimesExtend | combo_training.py:34 | recording one more key-down overwrites that key's entry with its time and nothing else |
| EventLog.LatestTimesKeys | combo_training.py:34 | after a stream of key-downs, the keys with an entry are those with one before plus the keys pressed |
| EventLog.LatestTimesLastPressWins | combo_training.py:34 | a key's entry holds the time of its last key-down in the stream |
| EventLog.LatestTimesFrame | combo_training.py:34 | a key never pressed in the stream keeps its entry, or its absence |
| EventLog.LatestTimesFromEvents | combo_training.py:34 | every entry written by the stream holds the time of one of its key-downs for that key |
| EventLog.FailedAttemptReset | combo_training.py:84-92 | when the log and map held only presses from before the step, and the attempt's presses all came at or after it, the reset restores the log exactly; the map loses the entries of every key pressed during the attempt |
| Trainer.EndToEndTimeline | combo_training.py:64-73 | for the combo "a", then "i"+"o" together: "a" at 1000 satisfies step one; with step two begun at 1001, "i" at 1100 alone does not satisfy it, and "o" at 1150 completes it |
| Trainer.EndToEndRecording | combo_training.py:31-34 | replaying that combo's key-downs produces the expected last-press maps |
| Trainer.EndToEndFirstStep | combo_training.py:56-79 | step one consumes only the press of "a" and succeeds at tick 1000, leaving "a" at 1000 as the only recorded press |
| Trainer.EndToEndSecondStep | combo_training.py:56-79 | step two, begun at 1001, consumes the presses of "i" and "o" and succeeds at tick 1150, completing the combo with "a", "i" and "o" recorded at 1000, 1100 and 1150 |

## Left out

- The keyboard library (`keyboard.hook`, `keyboard.unhook_all`) and its event objects. A key-down reaches the model as a `Press(key, time)` input. Key-ups change nothing in the callback, so the replayed stream omits them; `KeyEventHandler` still accepts them and leaves the state unchanged.
- The evaluation thread, `join`, and all concurrency between the callback and the loop. Callback writes happen only between evaluations of the match rule, in replay order.
- Replayed inputs need not be in time order, nor dated at or after the start of the attempt they are delivered in. An input dated before an attempt's start is still delivered in that attempt, and an attempt can then end at a time before it began. The training loop produces this itself, because each attempt starts one tick after the previous one ended. The code has a counterpart: a stop request landing between the `active` test at line 56 and the clock read at line 59. An input placed after one dated at or after the deadline is never reached in that attempt, even if it is dated before the deadline.
- StepMatcher.Matches, Trainer.ComboTrainer.CheckSimultaneousPress, Trainer.ComboTrainer.StepMatched, Trainer.ComboTrainer.AwaitStep, Trainer.ComboTrainer.RunStep and Trainer.ComboTrainer.RunComboTraining: do not model a simultaneous step with no keys. `CheckSimultaneousPress` requires a non-empty key set, and the others require `Evaluable` (a simultaneous step has at least one key). For such a step the code raises at `max([])` (combo_training.py:46) and the evaluation thread dies.
- The busy-wait at combo_training.py:63. It is replaced by evaluating the match rule once when the step begins and once after each input.
- `time.time()` and float seconds. Times are integer ticks supplied by the caller; the wait ends at the time of the resolving input, or at the deadline.
- The time of the next attempt. The code reads the clock anew at combo_training.py:59. `Trainer.ComboTrainer.RunComboTraining` begins the next attempt one tick after the previous one resolved.
- Unbounded retries. The code retries a failing step until training is stopped, so it may never return. `Trainer.ComboTrainer.RunComboTraining` takes a bound on the number of attempts.
- Trainer.ComboTrainer.RunComboTraining: states the step bounds, the attempt bound and the stopped-run case. It does not restate each attempt's effect on the log and map; `RunStep` states that.
- The `combo_thread` field, all `print` output, and `show_key_events` (combo_training.py:94-107). These are console rendering and thread bookkeeping.
- The `__main__` usage example (combo_training.py:131-146). `EndToEndScenario` plays a single-key step followed by the usage example's simultaneous i+o step, with fixed inputs.
- `defaultdict(float)`. The code only reads the map through `in`, indexing of present keys, and `.get(k, 0)`, so no entry is ever created by a read. The map is a plain `map<Key, Tick>`, with `TimeOrZero` standing for `.get(k, 0)`.
