/**
  The trainer's timing state as values: the event log, its truncation at a
  cutoff, the last-press map and its reset, and the effect of replaying a
  stream of captured presses onto both.
 */
module EventLog {
  import opened Combo

  /** The events of the log strictly before `cutoff`, in their original order. */
  function BeforeCutoff(events: seq<KeyEvent>, cutoff: Tick): (kept: seq<KeyEvent>)
    ensures |kept| <= |events|
  {
    if events == [] then []
    else (if events[0].time < cutoff then [events[0]] else []) + BeforeCutoff(events[1..], cutoff)
  }

  /** The kept events are exactly the log's events before the cutoff. */
  lemma {:induction false} BeforeCutoffMembers(events: seq<KeyEvent>, cutoff: Tick)
    ensures forall e :: e in BeforeCutoff(events, cutoff) <==> e in events && e.time < cutoff
    decreases |events|
  {
    if events != [] {
      BeforeCutoffMembers(events[1..], cutoff);
      assert forall e :: e in events <==> e == events[0] || e in events[1..];
    }
  }

  /** `sub` is `full` with some events removed and the rest in the same order. */
  ghost predicate IsSubsequence(sub: seq<KeyEvent>, full: seq<KeyEvent>)
    decreases |full|
  {
    if sub == [] then true
    else if full == [] then false
    else (sub[0] == full[0] && IsSubsequence(sub[1..], full[1..])) || IsSubsequence(sub, full[1..])
  }

  /** Truncation keeps the surviving events in their original order. */
  lemma {:induction false} BeforeCutoffIsSubsequence(events: seq<KeyEvent>, cutoff: Tick)
    ensures IsSubsequence(BeforeCutoff(events, cutoff), events)
    decreases |events|
  {
    if events != [] {
      BeforeCutoffIsSubsequence(events[1..], cutoff);
      var rest := BeforeCutoff(events[1..], cutoff);
      if events[0].time < cutoff {
        assert BeforeCutoff(events, cutoff) == [events[0]] + rest;
        assert ([events[0]] + rest)[1..] == rest;
      } else {
        assert BeforeCutoff(events, cutoff) == rest;
      }
    }
  }

  /** Truncating a log made of two parts truncates each part in place. */
  lemma {:induction false} BeforeCutoffAppend(front: seq<KeyEvent>, back: seq<KeyEvent>, cutoff: Tick)
    ensures BeforeCutoff(front + back, cutoff) == BeforeCutoff(front, cutoff) + BeforeCutoff(back, cutoff)
    decreases |front|
  {
    if front == [] {
      assert front + back == back;
    } else {
      var first, tail := front[0], front[1..];
      SplitFirst(front, back);
      BeforeCutoffAppend(tail, back, cutoff);
      BeforeCutoffCons(first, tail + back, cutoff);
      BeforeCutoffCons(first, tail, cutoff);
      if first.time < cutoff {
        Regroup([first], BeforeCutoff(tail, cutoff), BeforeCutoff(back, cutoff));
      }
    }
  }

  /** A non-empty front splits into its first event and the rest, also inside a concatenation. */
  lemma SplitFirst(front: seq<KeyEvent>, back: seq<KeyEvent>)
    requires front != []
    ensures front == [front[0]] + front[1..]
    ensures front + back == [front[0]] + (front[1..] + back)
  {
  }

  /** Concatenation of logs is associative. */
  lemma Regroup(a: seq<KeyEvent>, b: seq<KeyEvent>, c: seq<KeyEvent>)
    ensures a + (b + c) == (a + b) + c
  {
  }

  /** Truncating a log that starts with `first`: `first` stays exactly when it is before the cutoff. */
  lemma BeforeCutoffCons(first: KeyEvent, rest: seq<KeyEvent>, cutoff: Tick)
    ensures BeforeCutoff([first] + rest, cutoff) ==
      (if first.time < cutoff then [first] + BeforeCutoff(rest, cutoff) else BeforeCutoff(rest, cutoff))
  {
    var events := [first] + rest;
    assert events[0] == first && events[1..] == rest;
    if first.time >= cutoff {
      assert [] + BeforeCutoff(rest, cutoff) == BeforeCutoff(rest, cutoff);
    }
  }

  /** Truncating twice at the same cutoff is the same as truncating once. */
  lemma {:induction false} BeforeCutoffIdempotent(events: seq<KeyEvent>, cutoff: Tick)
    ensures BeforeCutoff(BeforeCutoff(events, cutoff), cutoff) == BeforeCutoff(events, cutoff)
    decreases |events|
  {
    if events != [] {
      var rest := BeforeCutoff(events[1..], cutoff);
      BeforeCutoffIdempotent(events[1..], cutoff);
      if events[0].time < cutoff {
        var kept := [events[0]] + rest;
        assert BeforeCutoff(events, cutoff) == kept;
        assert kept != [] && kept[0] == events[0] && kept[1..] == rest;
        assert BeforeCutoff(kept, cutoff) == [events[0]] + BeforeCutoff(rest, cutoff);
      } else {
        assert BeforeCutoff(events, cutoff) == rest;
      }
    }
  }

  /** A log entirely before the cutoff is left as it is. */
  lemma {:induction false} BeforeCutoffKeepsEarlyLog(events: seq<KeyEvent>, cutoff: Tick)
    requires forall i :: 0 <= i < |events| ==> events[i].time < cutoff
    ensures BeforeCutoff(events, cutoff) == events
    decreases |events|
  {
    if events != [] {
      BeforeCutoffKeepsEarlyLog(events[1..], cutoff);
      assert [events[0]] + events[1..] == events;
    }
  }

  /** A log entirely at or after the cutoff is emptied. */
  lemma {:induction false} BeforeCutoffDropsLateLog(events: seq<KeyEvent>, cutoff: Tick)
    requires forall i :: 0 <= i < |events| ==> events[i].time >= cutoff
    ensures BeforeCutoff(events, cutoff) == []
    decreases |events|
  {
    if events != [] {
      BeforeCutoffDropsLateLog(events[1..], cutoff);
    }
  }

  /** The last-press map without the entries at or after `cutoff`. */
  function ResetTimes(lastKeyTime: map<Key, Tick>, cutoff: Tick): (kept: map<Key, Tick>)
    ensures kept.Keys <= lastKeyTime.Keys
    ensures forall k :: k in kept ==> kept[k] == lastKeyTime[k] && kept[k] < cutoff
    ensures forall k :: k in lastKeyTime && lastKeyTime[k] < cutoff ==> k in kept
  {
    map k | k in lastKeyTime && lastKeyTime[k] < cutoff :: lastKeyTime[k]
  }

  /** Resetting twice at the same cutoff is the same as resetting once. */
  lemma ResetTimesIdempotent(lastKeyTime: map<Key, Tick>, cutoff: Tick)
    ensures ResetTimes(ResetTimes(lastKeyTime, cutoff), cutoff) == ResetTimes(lastKeyTime, cutoff)
  {
  }

  /** The key-down events among the first `n` inputs, in order; stop requests record nothing. */
  function Recorded(inputs: seq<Input>, n: nat): (events: seq<KeyEvent>)
    requires n <= |inputs|
    ensures |events| <= n
    ensures (forall j :: 0 <= j < n ==> inputs[j].Press?) ==> |events| == n
  {
    if n == 0 then []
    else
      var last := inputs[n - 1];
      Recorded(inputs, n - 1) + (if last.Press? then [KeyEvent(last.key, last.time)] else [])
  }

  /** The recorded events are exactly the key-downs among the first `n` inputs. */
  lemma {:induction false} RecordedPresses(inputs: seq<Input>, n: nat)
    requires n <= |inputs|
    ensures forall e :: e in Recorded(inputs, n) <==> exists j :: 0 <= j < n && inputs[j] == Press(e.key, e.time)
  {
    if n > 0 {
      RecordedPresses(inputs, n - 1);
      var last := inputs[n - 1];
      var front := Recorded(inputs, n - 1);
      forall e | e in Recorded(inputs, n)
        ensures exists j :: 0 <= j < n && inputs[j] == Press(e.key, e.time)
      {
        if e !in front {
          assert last == Press(e.key, e.time);
        }
      }
      forall e: KeyEvent | exists j :: 0 <= j < n && inputs[j] == Press(e.key, e.time)
        ensures e in Recorded(inputs, n)
      {
        var j :| 0 <= j < n && inputs[j] == Press(e.key, e.time);
        if j == n - 1 {
          assert Recorded(inputs, n) == front + [KeyEvent(e.key, e.time)];
          assert e == KeyEvent(e.key, e.time);
        }
      }
    }
  }

  /**
    The last-press map after the key-downs among the first `n` inputs were
    written over `lastKeyTime`, one input at a time.
   */
  function ReplayTimes(lastKeyTime: map<Key, Tick>, inputs: seq<Input>, n: nat): map<Key, Tick>
    requires n <= |inputs|
  {
    if n == 0 then lastKeyTime
    else
      var last := inputs[n - 1];
      var before := ReplayTimes(lastKeyTime, inputs, n - 1);
      if last.Press? then before[last.key := last.time] else before
  }

  /** The keys that occur in a list of events. */
  function KeysOf(events: seq<KeyEvent>): set<Key>
  {
    set e | e in events :: e.key
  }

  /** The last-press map after each event of `events`, in order, overwrote its key's entry. */
  function LatestTimes(lastKeyTime: map<Key, Tick>, events: seq<KeyEvent>): (updated: map<Key, Tick>)
    ensures events != [] ==>
      var last := events[|events| - 1];
      last.key in updated && updated[last.key] == last.time
  {
    if events == [] then lastKeyTime
    else
      var front := events[..|events| - 1];
      var last := events[|events| - 1];
      LatestTimes(lastKeyTime, front)[last.key := last.time]
  }

  /** Recording one more event overwrites that event's key, and only it. */
  lemma LatestTimesExtend(lastKeyTime: map<Key, Tick>, events: seq<KeyEvent>, e: KeyEvent)
    ensures LatestTimes(lastKeyTime, events + [e]) == LatestTimes(lastKeyTime, events)[e.key := e.time]
  {
    assert (events + [e])[..|events|] == events;
  }

  /** The keys with an entry after the events are those with one before, and the keys pressed. */
  lemma {:induction false} LatestTimesKeys(lastKeyTime: map<Key, Tick>, events: seq<KeyEvent>)
    ensures LatestTimes(lastKeyTime, events).Keys == lastKeyTime.Keys + KeysOf(events)
    decreases |events|
  {
    if events != [] {
      var front := events[..|events| - 1];
      var last := events[|events| - 1];
      assert events == front + [last];
      assert KeysOf(events) == KeysOf(front) + {last.key};
      LatestTimesKeys(lastKeyTime, front);
    }
  }

  /** Replaying the inputs writes the map exactly as the recorded key-downs do. */
  lemma {:induction false} ReplayTimesIsLatest(lastKeyTime: map<Key, Tick>, inputs: seq<Input>, n: nat)
    requires n <= |inputs|
    ensures ReplayTimes(lastKeyTime, inputs, n) == LatestTimes(lastKeyTime, Recorded(inputs, n))
  {
    if n > 0 {
      ReplayTimesIsLatest(lastKeyTime, inputs, n - 1);
      var last := inputs[n - 1];
      if last.Press? {
        assert Recorded(inputs, n) == Recorded(inputs, n - 1) + [KeyEvent(last.key, last.time)];
        LatestTimesExtend(lastKeyTime, Recorded(inputs, n - 1), KeyEvent(last.key, last.time));
      } else {
        assert Recorded(inputs, n) == Recorded(inputs, n - 1);
      }
    }
  }

  /** A key's entry holds the time of its last press among the events. */
  lemma {:induction false} LatestTimesLastPressWins(lastKeyTime: map<Key, Tick>, events: seq<KeyEvent>, i: nat)
    requires i < |events|
    requires forall j :: i < j < |events| ==> events[j].key != events[i].key
    ensures events[i].key in LatestTimes(lastKeyTime, events)
    ensures LatestTimes(lastKeyTime, events)[events[i].key] == events[i].time
    decreases |events|
  {
    if i < |events| - 1 {
      var front := events[..|events| - 1];
      LatestTimesLastPressWins(lastKeyTime, front, i);
    }
  }

  /** A key that is never pressed keeps its entry, or its absence. */
  lemma {:induction false} LatestTimesFrame(lastKeyTime: map<Key, Tick>, events: seq<KeyEvent>, k: Key)
    requires forall j :: 0 <= j < |events| ==> events[j].key != k
    ensures k in LatestTimes(lastKeyTime, events) <==> k in lastKeyTime
    ensures k in lastKeyTime ==> LatestTimes(lastKeyTime, events)[k] == lastKeyTime[k]
    decreases |events|
  {
    if events != [] {
      LatestTimesFrame(lastKeyTime, events[..|events| - 1], k);
    }
  }

  /** Every entry written by the events carries the time of one of them. */
  lemma {:induction false} LatestTimesFromEvents(lastKeyTime: map<Key, Tick>, events: seq<KeyEvent>, k: Key)
    requires k in KeysOf(events)
    ensures k in LatestTimes(lastKeyTime, events)
    ensures exists j :: 0 <= j < |events| && events[j].key == k && LatestTimes(lastKeyTime, events)[k] == events[j].time
    decreases |events|
  {
    var front := events[..|events| - 1];
    var last := events[|events| - 1];
    if last.key != k {
      assert events == front + [last];
      assert k in KeysOf(front);
      LatestTimesFromEvents(lastKeyTime, front, k);
      var j :| 0 <= j < |front| && front[j].key == k && LatestTimes(lastKeyTime, front)[k] == front[j].time;
      assert events[j] == front[j];
    } else {
      assert events[|events| - 1].key == k;
    }
  }

  /**
    What a failed attempt leaves behind. When the log and the map held only
    presses from before the step began and every press of the attempt came at
    or after it, the reset restores the log exactly, while a key pressed
    during the attempt loses its entry altogether: its earlier press time was
    overwritten and is not brought back.
   */
  lemma FailedAttemptReset(log: seq<KeyEvent>, lastKeyTime: map<Key, Tick>, presses: seq<KeyEvent>, stepStart: Tick)
    requires forall i :: 0 <= i < |log| ==> log[i].time < stepStart
    requires forall k :: k in lastKeyTime ==> lastKeyTime[k] < stepStart
    requires forall i :: 0 <= i < |presses| ==> presses[i].time >= stepStart
    ensures BeforeCutoff(log + presses, stepStart) == log
    ensures ResetTimes(LatestTimes(lastKeyTime, presses), stepStart) == lastKeyTime - KeysOf(presses)
  {
    BeforeCutoffAppend(log, presses, stepStart);
    BeforeCutoffKeepsEarlyLog(log, stepStart);
    BeforeCutoffDropsLateLog(presses, stepStart);
    assert log + [] == log;
    ResetAfterLatePresses(lastKeyTime, presses, stepStart);
  }

  /** The map half of FailedAttemptReset. */
  lemma ResetAfterLatePresses(lastKeyTime: map<Key, Tick>, presses: seq<KeyEvent>, stepStart: Tick)
    requires forall k :: k in lastKeyTime ==> lastKeyTime[k] < stepStart
    requires forall i :: 0 <= i < |presses| ==> presses[i].time >= stepStart
    ensures ResetTimes(LatestTimes(lastKeyTime, presses), stepStart) == lastKeyTime - KeysOf(presses)
  {
    var reset := ResetTimes(LatestTimes(lastKeyTime, presses), stepStart);
    var expected := lastKeyTime - KeysOf(presses);
    LatestTimesKeys(lastKeyTime, presses);
    forall k | k in KeysOf(presses)
      ensures k !in reset
    {
      LatestTimesFromEvents(lastKeyTime, presses, k);
    }
    forall k | k in expected
      ensures k in reset && reset[k] == expected[k]
    {
      UntouchedKey(lastKeyTime, presses, k);
    }
    assert reset.Keys == expected.Keys;
  }

  /** A key that is not among the events' keys keeps its entry. */
  lemma UntouchedKey(lastKeyTime: map<Key, Tick>, presses: seq<KeyEvent>, k: Key)
    requires k in lastKeyTime && k !in KeysOf(presses)
    ensures k in LatestTimes(lastKeyTime, presses) && LatestTimes(lastKeyTime, presses)[k] == lastKeyTime[k]
  {
    forall j | 0 <= j < |presses| ensures presses[j].key != k {
      assert presses[j] in presses;
    }
    LatestTimesFrame(lastKeyTime, presses, k);
  }

}
