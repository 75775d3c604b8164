/**
  The combo trainer: the step list, the index of the step being trained, the
  training flag, the event log and the last-press map, with the operations
  that change them. The keyboard hook and the evaluation thread are replaced
  by a replayed list of inputs (see RunStep).
 */
module Trainer {
  import opened Combo
  import opened StepMatcher
  import opened EventLog

  /**
    The step was unmatched before each of the first `n` inputs was replayed,
    starting from the last-press map `times0`.
   */
  ghost predicate UnmatchedBefore(step: ComboStep, times0: map<Key, Tick>, inputs: seq<Input>, stepStart: Tick, n: nat)
    requires Evaluable(step) && n <= |inputs|
  {
    n == 0
    || (UnmatchedBefore(step, times0, inputs, stepStart, n - 1)
        && !Matches(step, ReplayTimes(times0, inputs, n - 1), stepStart))
  }

  /** UnmatchedBefore spelled out input by input. */
  lemma {:induction false} UnmatchedBeforeAll(step: ComboStep, times0: map<Key, Tick>, inputs: seq<Input>, stepStart: Tick, n: nat)
    requires Evaluable(step) && n <= |inputs|
    requires UnmatchedBefore(step, times0, inputs, stepStart, n)
    ensures forall j :: 0 <= j < n ==> !Matches(step, LatestTimes(times0, Recorded(inputs, j)), stepStart)
  {
    if n > 0 {
      UnmatchedBeforeAll(step, times0, inputs, stepStart, n - 1);
      ReplayTimesIsLatest(times0, inputs, n - 1);
      assert !Matches(step, LatestTimes(times0, Recorded(inputs, n - 1)), stepStart);
    }
  }

  class ComboTrainer {
    var comboSequence: seq<ComboStep>
    var currentStep: nat
    var startTime: Tick
    var active: bool
    var lastKeyTime: map<Key, Tick>
    var keyEvents: seq<KeyEvent>

    /** The step index never passes the end of the step list. */
    ghost predicate Valid()
      reads this
    {
      currentStep <= |comboSequence|
    }

    /** Every step can be evaluated by the match rule without failing. */
    ghost predicate AllEvaluable()
      reads this
    {
      forall i :: 0 <= i < |comboSequence| ==> Evaluable(comboSequence[i])
    }

    /** A fresh trainer: no steps, not training, nothing recorded. */
    constructor ()
      ensures Valid()
      ensures comboSequence == [] && currentStep == 0 && startTime == 0 && !active
      ensures lastKeyTime == map[] && keyEvents == []
    {
      comboSequence := [];
      currentStep := 0;
      startTime := 0;
      active := false;
      lastKeyTime := map[];
      keyEvents := [];
    }

    /** Appends one step, its keys collected into a set, not simultaneous unless asked; no validation is done. */
    method AddComboStep(keys: seq<Key>, maxDelay: Tick, simultaneous: bool := false)
      requires Valid()
      modifies this`comboSequence
      ensures Valid()
      ensures |comboSequence| == |old(comboSequence)| + 1
      ensures comboSequence[..|old(comboSequence)|] == old(comboSequence)
      ensures comboSequence[|old(comboSequence)|] == ComboStep((set k | k in keys), maxDelay, simultaneous)
    {
      comboSequence := comboSequence + [ComboStep((set k | k in keys), maxDelay, simultaneous)];
    }

    /**
      The capture callback: while training, a key-down at time `now` is
      appended to the log and becomes the key's last press; anything else
      changes nothing.
     */
    method KeyEventHandler(eventType: EventType, name: Key, now: Tick)
      modifies this`keyEvents, this`lastKeyTime
      ensures eventType == KeyDown && active ==>
        keyEvents == old(keyEvents) + [KeyEvent(name, now)] && lastKeyTime == old(lastKeyTime)[name := now]
      ensures !(eventType == KeyDown && active) ==>
        keyEvents == old(keyEvents) && lastKeyTime == old(lastKeyTime)
      ensures forall k :: k != name ==> (k in lastKeyTime <==> k in old(lastKeyTime))
      ensures forall k :: k != name && k in lastKeyTime ==> lastKeyTime[k] == old(lastKeyTime)[k]
    {
      if eventType == KeyDown && active {
        keyEvents := keyEvents + [KeyEvent(name, now)];
        lastKeyTime := lastKeyTime[name := now];
      }
    }

    /**
      Collects the press time of every required key, failing as soon as one
      has none, and compares the spread of those times with `maxDelay`.
     */
    method CheckSimultaneousPress(requiredKeys: set<Key>, maxDelay: Tick) returns (simultaneous: bool)
      requires requiredKeys != {}
      ensures simultaneous == WithinTolerance(requiredKeys, lastKeyTime, maxDelay)
    {
      var keyTimes: seq<Tick> := [];
      var remaining := requiredKeys;
      ghost var visited: set<Key> := {};
      while remaining != {}
        invariant visited + remaining == requiredKeys && visited !! remaining
        invariant visited <= lastKeyTime.Keys
        invariant forall k :: k in visited ==> lastKeyTime[k] in keyTimes
        invariant forall t :: t in keyTimes ==> exists k :: k in visited && lastKeyTime[k] == t
        decreases remaining
      {
        var key :| key in remaining;
        if key !in lastKeyTime {
          return false;
        }
        keyTimes := keyTimes + [lastKeyTime[key]];
        remaining := remaining - {key};
        visited := visited + {key};
      }
      ghost var some :| some in requiredKeys;
      assert lastKeyTime[some] in keyTimes;
      SpreadWithinTolerance(requiredKeys, lastKeyTime, maxDelay, keyTimes);
      simultaneous := MaxTime(keyTimes) - MinTime(keyTimes) <= maxDelay;
    }

    /** Starts a run: step 0, the start time, and an empty log and map. */
    method BeginRun(t0: Tick)
      requires Valid()
      modifies this`currentStep, this`startTime, this`keyEvents, this`lastKeyTime
      ensures Valid()
      ensures currentStep == 0 && startTime == t0 && keyEvents == [] && lastKeyTime == map[]
    {
      currentStep := 0;
      startTime := t0;
      keyEvents := [];
      lastKeyTime := map[];
    }

    /**
      Discards a failed attempt: the log keeps only the events before
      `stepStart`, and every map entry at or after it is deleted, key by key.
     */
    method ResetStep(stepStart: Tick)
      modifies this`keyEvents, this`lastKeyTime
      ensures keyEvents == BeforeCutoff(old(keyEvents), stepStart)
      ensures lastKeyTime == ResetTimes(old(lastKeyTime), stepStart)
    {
      keyEvents := BeforeCutoff(keyEvents, stepStart);
      var keys := lastKeyTime.Keys;
      while keys != {}
        invariant keyEvents == BeforeCutoff(old(keyEvents), stepStart)
        invariant keys <= old(lastKeyTime).Keys
        invariant forall k :: k in lastKeyTime <==> k in old(lastKeyTime) && (k in keys || old(lastKeyTime)[k] < stepStart)
        invariant forall k :: k in lastKeyTime ==> lastKeyTime[k] == old(lastKeyTime)[k]
        decreases keys
      {
        var key :| key in keys;
        if lastKeyTime[key] >= stepStart {
          lastKeyTime := lastKeyTime - {key};
        }
        keys := keys - {key};
      }
      assert lastKeyTime.Keys == ResetTimes(old(lastKeyTime), stepStart).Keys;
    }

    /** Turns training on, unless there are no steps to train. */
    method StartTraining()
      modifies this`active
      ensures |comboSequence| == 0 ==> active == old(active)
      ensures |comboSequence| > 0 ==> active
    {
      if |comboSequence| == 0 {
        return;
      }
      active := true;
    }

    /** Turns training off. */
    method StopTraining()
      modifies this`active
      ensures !active
    {
      active := false;
    }

    /**
      The match rule evaluated on the live last-press map: the required keys
      pressed since `stepStart`, then either the all-keys-and-simultaneity
      test or the any-key test.
     */
    method StepMatched(step: ComboStep, stepStart: Tick) returns (matched: bool)
      requires Evaluable(step)
      ensures matched == Matches(step, lastKeyTime, stepStart)
    {
      var requiredKeys := step.keys;
      var pressed := PressedKeys(requiredKeys, lastKeyTime, stepStart);
      matched := false;
      if step.simultaneous {
        if pressed == requiredKeys {
          matched := CheckSimultaneousPress(requiredKeys, SimultaneityTolerance);
        }
      } else if pressed != {} {
        matched := true;
      }
    }

    /**
      The wait for one step, from `stepStart` until `deadline`. The match rule
      is evaluated at the start and after each input; inputs are replayed in
      order while the step is unmatched, training is on and the input comes
      before the deadline. A key-down goes through the capture callback, a
      stop request turns training off. When no input is left before the
      deadline the clock reaches the deadline. `consumed` is the number of
      inputs replayed and `now` the time at which the wait ends.
     */
    method AwaitStep(step: ComboStep, stepStart: Tick, deadline: Tick, inputs: seq<Input>) returns (consumed: nat, now: Tick)
      requires Evaluable(step) && active
      modifies this`keyEvents, this`lastKeyTime, this`active
      ensures consumed <= |inputs|
      ensures keyEvents == old(keyEvents) + Recorded(inputs, consumed)
      ensures lastKeyTime == ReplayTimes(old(lastKeyTime), inputs, consumed)
      ensures forall j :: 0 <= j < consumed ==> inputs[j].time < deadline
      ensures forall j :: 0 <= j && j + 1 < consumed ==> inputs[j].Press?
      ensures active <==> !(0 < consumed && inputs[consumed - 1].Stop?)
      ensures UnmatchedBefore(step, old(lastKeyTime), inputs, stepStart, consumed)
      ensures now < deadline <==> stepStart < deadline && (!active || Matches(step, lastKeyTime, stepStart))
      ensures now < deadline ==> now == if consumed == 0 then stepStart else inputs[consumed - 1].time
      ensures stepStart < deadline <= now ==>
        now == deadline && (consumed == |inputs| || inputs[consumed].time >= deadline)
      ensures deadline <= stepStart ==> consumed == 0 && now == stepStart
    {
      ghost var log0, times0 := keyEvents, lastKeyTime;
      now, consumed := stepStart, 0;
      while now < deadline && active
        invariant consumed <= |inputs|
        invariant keyEvents == log0 + Recorded(inputs, consumed)
        invariant lastKeyTime == ReplayTimes(times0, inputs, consumed)
        invariant forall j :: 0 <= j < consumed ==> inputs[j].time < deadline
        invariant forall j :: 0 <= j && j + 1 < consumed ==> inputs[j].Press?
        invariant active <==> !(0 < consumed && inputs[consumed - 1].Stop?)
        invariant UnmatchedBefore(step, times0, inputs, stepStart, consumed)
        invariant now < deadline <==> stepStart < deadline
        invariant now < deadline ==> now == if consumed == 0 then stepStart else inputs[consumed - 1].time
        invariant deadline <= stepStart ==> consumed == 0 && now == stepStart
        decreases |inputs| - consumed
      {
        var matched := StepMatched(step, stepStart);
        if matched {
          break;
        }
        if consumed < |inputs| && inputs[consumed].time < deadline {
          now := Deliver(inputs, consumed, log0, times0);
          consumed := consumed + 1;
        } else {
          now := deadline;
          break;
        }
      }
    }

    /**
      Delivers input `i` while training: a key-down goes through the capture
      callback, a stop request turns training off. The log and the map then
      hold the presses of the first `i + 1` inputs.
     */
    method Deliver(inputs: seq<Input>, i: nat, ghost log0: seq<KeyEvent>, ghost times0: map<Key, Tick>) returns (now: Tick)
      requires i < |inputs| && active
      requires keyEvents == log0 + Recorded(inputs, i)
      requires lastKeyTime == ReplayTimes(times0, inputs, i)
      modifies this`keyEvents, this`lastKeyTime, this`active
      ensures now == inputs[i].time
      ensures active == inputs[i].Press?
      ensures keyEvents == log0 + Recorded(inputs, i + 1)
      ensures lastKeyTime == ReplayTimes(times0, inputs, i + 1)
    {
      ghost var before := Recorded(inputs, i);
      match inputs[i] {
        case Press(key, time) =>
          var e := KeyEvent(key, time);
          assert Recorded(inputs, i + 1) == before + [e];
          KeyEventHandler(KeyDown, key, time);
          assert keyEvents == (log0 + before) + [e] == log0 + (before + [e]);
          now := time;
        case Stop(time) =>
          assert Recorded(inputs, i + 1) == before;
          StopTraining();
          now := time;
      }
    }

    /**
      One attempt at the current step, started at `stepStart` and bounded by
      the deadline `stepStart + maxDelay`. Resolving before the deadline (a
      match, or training being stopped) advances the step and keeps what was
      recorded; otherwise the attempt's presses are discarded and the step
      stays.
     */
    method RunStep(stepStart: Tick, inputs: seq<Input>) returns (consumed: nat, now: Tick)
      requires Valid() && currentStep < |comboSequence| && Evaluable(comboSequence[currentStep])
      requires active
      modifies this
      ensures Valid() && comboSequence == old(comboSequence) && startTime == old(startTime)
      ensures consumed <= |inputs|
      ensures var deadline := stepStart + old(comboSequence[currentStep]).maxDelay;
        forall j :: 0 <= j < consumed ==> inputs[j].time < deadline
      ensures forall j :: 0 <= j && j + 1 < consumed ==> inputs[j].Press?
      ensures active <==> !(0 < consumed && inputs[consumed - 1].Stop?)
      ensures var step := old(comboSequence[currentStep]);
        forall j :: 0 <= j < consumed ==> !Matches(step, LatestTimes(old(lastKeyTime), Recorded(inputs, j)), stepStart)
      ensures var step := old(comboSequence[currentStep]);
        var deadline := stepStart + step.maxDelay;
        now < deadline <==>
          stepStart < deadline
          && (!active || Matches(step, LatestTimes(old(lastKeyTime), Recorded(inputs, consumed)), stepStart))
      ensures var deadline := stepStart + old(comboSequence[currentStep]).maxDelay;
        now < deadline ==> now == if consumed == 0 then stepStart else inputs[consumed - 1].time
      ensures var deadline := stepStart + old(comboSequence[currentStep]).maxDelay;
        stepStart < deadline <= now ==>
          now == deadline && (consumed == |inputs| || inputs[consumed].time >= deadline)
      ensures var deadline := stepStart + old(comboSequence[currentStep]).maxDelay;
        deadline <= stepStart ==> consumed == 0 && now == stepStart
      ensures var deadline := stepStart + old(comboSequence[currentStep]).maxDelay;
        var recorded := Recorded(inputs, consumed);
        if now < deadline then
          && currentStep == old(currentStep) + 1
          && keyEvents == old(keyEvents) + recorded
          && lastKeyTime == LatestTimes(old(lastKeyTime), recorded)
        else
          && currentStep == old(currentStep)
          && keyEvents == BeforeCutoff(old(keyEvents) + recorded, stepStart)
          && lastKeyTime == ResetTimes(LatestTimes(old(lastKeyTime), recorded), stepStart)
    {
      var step := comboSequence[currentStep];
      var deadline := stepStart + step.maxDelay;
      consumed, now := AwaitStep(step, stepStart, deadline, inputs);
      UnmatchedBeforeAll(step, old(lastKeyTime), inputs, stepStart, consumed);
      ReplayTimesIsLatest(old(lastKeyTime), inputs, consumed);
      if now < deadline {
        currentStep := currentStep + 1;
      } else {
        ResetStep(stepStart);
      }
    }

    /**
      The evaluation loop: starts a run at `t0` and attempts the current step
      until training is stopped, every step has succeeded, or `maxAttempts`
      attempts have been made. Each attempt starts one tick after the previous
      one was resolved and replays the inputs the previous attempts left.
     */
    method RunComboTraining(t0: Tick, inputs: seq<Input>, maxAttempts: nat) returns (attempts: nat)
      requires Valid() && AllEvaluable()
      modifies this
      ensures Valid() && comboSequence == old(comboSequence) && startTime == t0
      ensures currentStep <= attempts <= maxAttempts
      ensures active && currentStep < |comboSequence| ==> attempts == maxAttempts
      ensures !old(active) ==> attempts == 0 && currentStep == 0 && keyEvents == [] && lastKeyTime == map[]
    {
      BeginRun(t0);
      var stepStart := t0;
      var rest := inputs;
      attempts := 0;
      while active && currentStep < |comboSequence| && attempts < maxAttempts
        invariant Valid() && AllEvaluable()
        invariant comboSequence == old(comboSequence) && startTime == t0
        invariant currentStep <= attempts <= maxAttempts
        invariant !old(active) ==> !active && attempts == 0 && currentStep == 0 && keyEvents == [] && lastKeyTime == map[]
        decreases maxAttempts - attempts
      {
        var consumed, now := RunStep(stepStart, rest);
        rest := rest[consumed..];
        stepStart := now + 1;
        attempts := attempts + 1;
      }
    }
  }
  /**
    The match rule along the timeline of the two-step combo below: "a" at
    tick 1000 satisfies the first step as soon as it is pressed; for the
    second step, begun at 1001, "i" at 1100 alone does not, and "o" at 1150
    completes a simultaneous press 50 ticks wide.
   */
  lemma EndToEndTimeline()
    ensures !Matches(ComboStep({"a"}, 500, false), map[], 1000)
    ensures Matches(ComboStep({"a"}, 500, false), map["a" := 1000], 1000)
    ensures !Matches(ComboStep({"i", "o"}, 500, true), map["a" := 1000], 1001)
    ensures !Matches(ComboStep({"i", "o"}, 500, true), map["a" := 1000, "i" := 1100], 1001)
    ensures Matches(ComboStep({"i", "o"}, 500, true), map["a" := 1000, "i" := 1100, "o" := 1150], 1001)
  {
    var second := ComboStep({"i", "o"}, 500, true);
    assert "o" !in PressedKeys(second.keys, map["a" := 1000, "i" := 1100], 1001);
    assert "i" !in PressedKeys(second.keys, map["a" := 1000], 1001);
    AllWithinToleranceRule(second, map["a" := 1000, "i" := 1100, "o" := 1150], 1001);
  }

  /** The last-press maps that replaying the scenario's presses produces. */
  lemma EndToEndRecording(inputs: seq<Input>)
    requires inputs == [Press("a", 1000), Press("i", 1100), Press("o", 1150)]
    ensures LatestTimes(map[], Recorded(inputs, 0)) == map[]
    ensures LatestTimes(map["a" := 1000], Recorded(inputs[1..], 0)) == map["a" := 1000]
    ensures LatestTimes(map[], Recorded(inputs, 1)) == map["a" := 1000]
    ensures LatestTimes(map["a" := 1000], Recorded(inputs[1..], 1)) == map["a" := 1000, "i" := 1100]
    ensures LatestTimes(map["a" := 1000], Recorded(inputs[1..], 2)) == map["a" := 1000, "i" := 1100, "o" := 1150]
  {
    var rest := inputs[1..];
    assert Recorded(inputs, 0) == [] && Recorded(rest, 0) == [];
    assert Recorded(inputs, 1) == [KeyEvent("a", 1000)];
    assert Recorded(rest, 1) == [KeyEvent("i", 1100)];
    assert Recorded(rest, 2) == [KeyEvent("i", 1100), KeyEvent("o", 1150)];
    LatestTimesExtend(map[], [], KeyEvent("a", 1000));
    LatestTimesExtend(map["a" := 1000], [], KeyEvent("i", 1100));
    LatestTimesExtend(map["a" := 1000], [KeyEvent("i", 1100)], KeyEvent("o", 1150));
  }

  /**
    A two-step combo: "a" alone, then "i" and "o" together. Pressing "a" at
    the start, "i" 100 ticks later and "o" 50 ticks after that completes it.
   */
  method EndToEndScenario()
  {
    var trainer := new ComboTrainer();
    trainer.AddComboStep(["a"], 500);
    trainer.AddComboStep(["i", "o"], 500, true);
    trainer.StartTraining();
    trainer.BeginRun(1000);
    assert (set k | k in ["a"]) == {"a"};
    assert (set k | k in ["i", "o"]) == {"i", "o"};
    assert trainer.comboSequence == [ComboStep({"a"}, 500, false), ComboStep({"i", "o"}, 500, true)];
    EndToEndTimeline();

    var inputs := [Press("a", 1000), Press("i", 1100), Press("o", 1150)];
    var consumed, now := EndToEndFirstStep(trainer, inputs);
    consumed, now := EndToEndSecondStep(trainer, inputs);
    assert trainer.currentStep == |trainer.comboSequence|;
  }

  /** The first step of EndToEndScenario: the press of "a" at the start satisfies it at once. */
  method EndToEndFirstStep(trainer: ComboTrainer, inputs: seq<Input>) returns (consumed: nat, now: Tick)
    requires inputs == [Press("a", 1000), Press("i", 1100), Press("o", 1150)]
    requires trainer.comboSequence == [ComboStep({"a"}, 500, false), ComboStep({"i", "o"}, 500, true)]
    requires trainer.currentStep == 0 && trainer.active && trainer.lastKeyTime == map[]
    modifies trainer
    ensures trainer.comboSequence == old(trainer.comboSequence)
    ensures consumed == 1 && now == 1000
    ensures trainer.currentStep == 1 && trainer.active && trainer.lastKeyTime == map["a" := 1000]
  {
    EndToEndTimeline();
    EndToEndRecording(inputs);
    consumed, now := trainer.RunStep(1000, inputs);
    if consumed == 0 {
      assert false;
    } else if consumed > 1 {
      assert false;
    }
  }

  /** The second step of EndToEndScenario, begun one tick after the first succeeded. */
  method EndToEndSecondStep(trainer: ComboTrainer, inputs: seq<Input>) returns (consumed: nat, now: Tick)
    requires inputs == [Press("a", 1000), Press("i", 1100), Press("o", 1150)]
    requires trainer.comboSequence == [ComboStep({"a"}, 500, false), ComboStep({"i", "o"}, 500, true)]
    requires trainer.currentStep == 1 && trainer.active && trainer.lastKeyTime == map["a" := 1000]
    modifies trainer
    ensures trainer.comboSequence == old(trainer.comboSequence)
    ensures consumed == 2 && now == 1150
    ensures trainer.currentStep == 2
    ensures trainer.lastKeyTime == map["a" := 1000, "i" := 1100, "o" := 1150]
  {
    EndToEndTimeline();
    EndToEndRecording(inputs);
    var rest := inputs[1..];
    consumed, now := trainer.RunStep(1001, rest);
    if consumed < 2 {
      assert false;
    } else if consumed > 2 {
      assert false;
    }
  }
}
