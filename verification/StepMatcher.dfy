/**
  The match rule of one combo step: which required keys have been pressed
  since the step began, whether their press times are close enough to count
  as simultaneous, and whether the step is satisfied.
 */
module StepMatcher {
  import opened Combo

  /** The recorded press time of `k`, or 0 when `k` has never been pressed. */
  function TimeOrZero(lastKeyTime: map<Key, Tick>, k: Key): Tick
  {
    if k in lastKeyTime then lastKeyTime[k] else 0
  }

  /**
    The required keys pressed at or after `stepStart`. A key with no recorded
    press counts as pressed at time 0.
   */
  function PressedKeys(required: set<Key>, lastKeyTime: map<Key, Tick>, stepStart: Tick): (pressed: set<Key>)
    ensures pressed <= required
    ensures forall k :: k in pressed && k in lastKeyTime ==> lastKeyTime[k] >= stepStart
    ensures forall k :: k in pressed && k !in lastKeyTime ==> stepStart <= 0
    ensures forall k :: k in required && k in lastKeyTime && lastKeyTime[k] >= stepStart ==> k in pressed
    ensures forall k :: k in required && k !in lastKeyTime && stepStart <= 0 ==> k in pressed
  {
    set k | k in required && TimeOrZero(lastKeyTime, k) >= stepStart
  }

  /**
    Reference definition of a simultaneous press: every required key has a
    recorded press, and no two of those presses are more than `tolerance` apart.
   */
  predicate WithinTolerance(required: set<Key>, lastKeyTime: map<Key, Tick>, tolerance: Tick)
  {
    && (forall k :: k in required ==> k in lastKeyTime)
    && (forall a, b :: a in required && b in required ==> lastKeyTime[a] - lastKeyTime[b] <= tolerance)
  }

  /** The largest of a non-empty list of press times. */
  function MaxTime(times: seq<Tick>): (r: Tick)
    requires |times| > 0
    ensures r in times
    ensures forall t :: t in times ==> t <= r
  {
    if |times| == 1 then times[0]
    else
      var rest := MaxTime(times[1..]);
      assert forall t :: t in times ==> t == times[0] || t in times[1..];
      if times[0] >= rest then times[0] else rest
  }

  /** The smallest of a non-empty list of press times. */
  function MinTime(times: seq<Tick>): (r: Tick)
    requires |times| > 0
    ensures r in times
    ensures forall t :: t in times ==> r <= t
  {
    if |times| == 1 then times[0]
    else
      var rest := MinTime(times[1..]);
      assert forall t :: t in times ==> t == times[0] || t in times[1..];
      if times[0] <= rest then times[0] else rest
  }

  /**
    The spread test on a list holding exactly the press times of the required
    keys: the latest minus the earliest is within `tolerance` iff the keys
    form a simultaneous press under the pairwise definition.
   */
  lemma SpreadWithinTolerance(required: set<Key>, lastKeyTime: map<Key, Tick>, tolerance: Tick, times: seq<Tick>)
    requires |times| > 0
    requires forall k :: k in required ==> k in lastKeyTime && lastKeyTime[k] in times
    requires forall t :: t in times ==> exists k :: k in required && k in lastKeyTime && lastKeyTime[k] == t
    ensures WithinTolerance(required, lastKeyTime, tolerance) <==> MaxTime(times) - MinTime(times) <= tolerance
  {
    var latest, earliest := MaxTime(times), MinTime(times);
    var a :| a in required && a in lastKeyTime && lastKeyTime[a] == latest;
    var b :| b in required && b in lastKeyTime && lastKeyTime[b] == earliest;
    if latest - earliest <= tolerance {
      forall x, y | x in required && y in required
        ensures lastKeyTime[x] - lastKeyTime[y] <= tolerance
      {
        assert lastKeyTime[x] in times && lastKeyTime[y] in times;
      }
    }
  }

  /**
    The match rule: a simultaneous step needs every required key pressed since
    the step began and a passing simultaneity check at the fixed tolerance; any
    other step is satisfied by any one of its keys.
   */
  predicate Matches(step: ComboStep, lastKeyTime: map<Key, Tick>, stepStart: Tick)
    requires Evaluable(step)
    ensures Matches(step, lastKeyTime, stepStart) ==> PressedKeys(step.keys, lastKeyTime, stepStart) != {}
    ensures Matches(step, lastKeyTime, stepStart) && step.simultaneous ==>
      forall k :: k in step.keys ==> k in lastKeyTime && lastKeyTime[k] >= stepStart
  {
    var pressed := PressedKeys(step.keys, lastKeyTime, stepStart);
    if step.simultaneous then
      pressed == step.keys && WithinTolerance(step.keys, lastKeyTime, SimultaneityTolerance)
    else
      pressed != {}
  }

  /** A step that is not simultaneous is satisfied iff some one of its keys was pressed since it began. */
  lemma AnyOfRule(step: ComboStep, lastKeyTime: map<Key, Tick>, stepStart: Tick)
    requires !step.simultaneous
    ensures Matches(step, lastKeyTime, stepStart) <==>
      exists k :: k in step.keys && (if k in lastKeyTime then lastKeyTime[k] >= stepStart else stepStart <= 0)
  {
    var pressed := PressedKeys(step.keys, lastKeyTime, stepStart);
    if pressed != {} {
      var k :| k in pressed;
      assert k in step.keys && (if k in lastKeyTime then lastKeyTime[k] >= stepStart else stepStart <= 0);
    }
  }

  /**
    A simultaneous step is satisfied iff every required key has a recorded
    press at or after the step start and no two of them are more than the
    tolerance apart.
   */
  lemma AllWithinToleranceRule(step: ComboStep, lastKeyTime: map<Key, Tick>, stepStart: Tick)
    requires step.simultaneous && step.keys != {}
    ensures Matches(step, lastKeyTime, stepStart) <==>
      && (forall k :: k in step.keys ==> k in lastKeyTime && lastKeyTime[k] >= stepStart)
      && (forall a, b :: a in step.keys && b in step.keys ==>
            lastKeyTime[a] - lastKeyTime[b] <= SimultaneityTolerance)
  {
    var pressed := PressedKeys(step.keys, lastKeyTime, stepStart);
    if forall k :: k in step.keys ==> k in lastKeyTime && lastKeyTime[k] >= stepStart {
      assert pressed == step.keys;
    }
  }

  /**
    Presses from before the step began never satisfy it, once the step starts
    after tick 0 (so that a missing key, which counts as time 0, is stale too).
   */
  lemma StalePressesNeverMatch(step: ComboStep, lastKeyTime: map<Key, Tick>, stepStart: Tick)
    requires Evaluable(step)
    requires 0 < stepStart
    requires forall k :: k in lastKeyTime ==> lastKeyTime[k] < stepStart
    ensures !Matches(step, lastKeyTime, stepStart)
  {
    var pressed := PressedKeys(step.keys, lastKeyTime, stepStart);
    assert pressed == {};
    if step.simultaneous {
      var k :| k in step.keys;
      assert k !in pressed;
    }
  }

  /**
    The tolerance bound is inclusive: two keys pressed exactly the tolerance
    apart form a simultaneous press, one tick more apart they do not.
   */
  lemma SimultaneityBoundary(first: Key, second: Key, maxDelay: Tick, stepStart: Tick, t: Tick)
    requires first != second
    requires stepStart <= t
    ensures Matches(ComboStep({first, second}, maxDelay, true),
                    map[first := t, second := t + SimultaneityTolerance], stepStart)
    ensures !Matches(ComboStep({first, second}, maxDelay, true),
                     map[first := t, second := t + SimultaneityTolerance + 1], stepStart)
  {
    var step := ComboStep({first, second}, maxDelay, true);
    var wide := map[first := t, second := t + SimultaneityTolerance + 1];
    AllWithinToleranceRule(step, wide, stepStart);
    assert wide[second] - wide[first] > SimultaneityTolerance;
  }
}
