/**
 * The debounce state machine of the poll loop: one boolean, `currentlyPressed`,
 * starts out false; each response buffer read from the button is classified
 * as pressed (first byte 26) or released (anything else), and a transition is
 * reported only when the classification differs from the stored state.
 */
module Debounce {
  import opened Wrappers

  /** The first data byte the button sends while it is held down (27 otherwise). */
  const DataWhenPressed: byte := 26

  /** The events printed by the poll loop: `PRESSED` and `RELEASED`. */
  datatype Transition = Pressed | Released

  /**
   * `data[0] === DATA_WHEN_PRESSED`. An empty buffer has no element 0, and in
   * JavaScript `undefined === 26` is false, so it reads as released.
   */
  function IsPressedNow(data: seq<byte>): (pressed: bool)
    ensures data == [] ==> !pressed
    ensures |data| > 0 ==> (pressed <==> data[0] == DataWhenPressed)
  {
    |data| > 0 && data[0] == DataWhenPressed
  }

  /** The transition reported when `data` arrives while the stored state is `wasPressed`. */
  function Edge(wasPressed: bool, data: seq<byte>): (t: Option<Transition>)
    ensures t.Some? <==> IsPressedNow(data) != wasPressed
    ensures t == Some(Pressed) <==> !wasPressed && IsPressedNow(data)
    ensures t == Some(Released) <==> wasPressed && !IsPressedNow(data)
  {
    var isPressedNow := IsPressedNow(data);
    if isPressedNow == wasPressed then None
    else if isPressedNow then Some(Pressed)
    else Some(Released)
  }

  /** The transitions reported for a run of samples, starting from `wasPressed`. */
  function Events(wasPressed: bool, samples: seq<seq<byte>>): (events: seq<Transition>)
    ensures |events| <= |samples|
    decreases |samples|
  {
    if samples == [] then []
    else
      var rest := Events(IsPressedNow(samples[0]), samples[1..]);
      match Edge(wasPressed, samples[0])
      case None => rest
      case Some(t) => [t] + rest
  }

  /** The stored state after a run of samples, starting from `wasPressed`. */
  function Final(wasPressed: bool, samples: seq<seq<byte>>): bool
  {
    if samples == [] then wasPressed else IsPressedNow(samples[|samples| - 1])
  }

  /**
   * The stored button state. The source keeps it in a variable captured by
   * the `poll` closure and overwrites it in place.
   */
  class Button {
    var currentlyPressed: bool

    /** The state before the first sample: not pressed. */
    constructor ()
      ensures !currentlyPressed
    {
      currentlyPressed := false;
    }

    /**
     * Classifies one response buffer, stores the classification, and reports
     * a transition exactly when it differs from the state stored before.
     */
    method Observe(data: seq<byte>) returns (t: Option<Transition>)
      modifies this
      ensures currentlyPressed == IsPressedNow(data)
      ensures t == Edge(old(currentlyPressed), data)
    {
      var isPressedNow := IsPressedNow(data);
      t := None;
      if isPressedNow != currentlyPressed {
        currentlyPressed := isPressedNow;
        if isPressedNow {
          t := Some(Pressed);
        } else {
          t := Some(Released);
        }
      }
    }
  }

  /**
   * `events` alternates, starting with the transition away from `wasPressed`:
   * from released the first event is a press, then a release, and so on.
   */
  predicate AlternatesFrom(wasPressed: bool, events: seq<Transition>)
  {
    forall i :: 0 <= i < |events| ==>
      events[i] == (if (i % 2 == 0) == wasPressed then Released else Pressed)
  }

  /**
   * Over any run of samples the reported events alternate, and the final
   * state is the starting state flipped once per event.
   */
  lemma {:induction false} EventsAlternate(wasPressed: bool, samples: seq<seq<byte>>)
    ensures AlternatesFrom(wasPressed, Events(wasPressed, samples))
    ensures Final(wasPressed, samples) == (wasPressed != (|Events(wasPressed, samples)| % 2 == 1))
    decreases |samples|
  {
    if samples != [] {
      var now := IsPressedNow(samples[0]);
      EventsAlternate(now, samples[1..]);
      var rest := Events(now, samples[1..]);
      assert Final(wasPressed, samples) == Final(now, samples[1..]);
      if now != wasPressed {
        assert Events(wasPressed, samples) == [Edge(wasPressed, samples[0]).value] + rest;
        forall i | 0 < i < |rest| + 1
          ensures ([Edge(wasPressed, samples[0]).value] + rest)[i]
               == (if (i % 2 == 0) == wasPressed then Released else Pressed)
        {
          assert ((i - 1) % 2 == 0) == (i % 2 != 0);
        }
      }
    }
  }

  /** Started from not pressed, even-numbered events are presses and odd-numbered ones releases. */
  lemma PressedReleasedAlternate(samples: seq<seq<byte>>, i: nat)
    requires i < |Events(false, samples)|
    ensures Events(false, samples)[i] == Pressed <==> i % 2 == 0
    ensures Events(false, samples)[0] == Pressed
  {
    EventsAlternate(false, samples);
  }

  /** Feeding two runs one after the other reports the events of each, in order. */
  lemma {:induction false} EventsAppend(wasPressed: bool, s: seq<seq<byte>>, t: seq<seq<byte>>)
    ensures Events(wasPressed, s + t) == Events(wasPressed, s) + Events(Final(wasPressed, s), t)
    decreases |s|
  {
    if s == [] {
      assert s + t == t;
    } else {
      assert (s + t)[0] == s[0] && (s + t)[1..] == s[1..] + t;
      EventsAppend(IsPressedNow(s[0]), s[1..], t);
      if s[1..] == [] {
        assert Final(IsPressedNow(s[0]), s[1..]) == Final(wasPressed, s);
      } else {
        assert s[1..][|s[1..]| - 1] == s[|s| - 1];
      }
    }
  }

  /** A sample that repeats the previous one reports nothing: detection is edge-triggered. */
  lemma RepeatIsSilent(wasPressed: bool, s: seq<seq<byte>>, data: seq<byte>)
    ensures Events(wasPressed, s + [data, data]) == Events(wasPressed, s + [data])
  {
    EventsAppend(wasPressed, s, [data, data]);
    EventsAppend(wasPressed, s, [data]);
    var f := Final(wasPressed, s);
    assert [data, data][1..] == [data];
    assert Events(IsPressedNow(data), [data]) == [];
  }

  /** From the initial state, a first sample of 26 reports exactly one press. */
  lemma FirstPressReported()
    ensures Events(false, [[26]]) == [Pressed]
  {
  }

  /** From the initial state, a first sample of 27 reports nothing. */
  lemma FirstReleaseSilent()
    ensures Events(false, [[27]]) == []
  {
  }

  /** Samples 26, 26, 27, 27, 26 report press, release, press. */
  lemma PressReleasePress()
    ensures Events(false, [[26], [26], [27], [27], [26]]) == [Pressed, Released, Pressed]
  {
  }
}
