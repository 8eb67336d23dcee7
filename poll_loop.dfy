/**
 * The poll loop: each cycle sends the poll command by control transfer, then
 * reads the interrupt endpoint. A read that times out schedules the next
 * cycle and changes nothing; a response is fed to the debounce state and the
 * next cycle is scheduled; any other error, of either transfer, is thrown and
 * ends the loop. The transfers are replaced by the sequence of outcomes they
 * produce, one per cycle; when that sequence runs out the loop is still polling.
 */
module PollLoop {
  import opened Wrappers
  import opened Launch
  import opened Debounce

  /** How one cycle ends. */
  datatype CycleOutcome =
    | Sample(data: seq<byte>)  // the endpoint read completed with this buffer
    | TimedOut                 // the endpoint read failed with LIBUSB_TRANSFER_TIMED_OUT
    | ControlError             // the control transfer failed
    | ReadError                // the endpoint read failed in any other way

  /** The outcomes that throw, so that no further cycle is scheduled. */
  predicate IsFatal(o: CycleOutcome)
  {
    o.ControlError? || o.ReadError?
  }

  /** None of the first `k` outcomes throws. */
  predicate NoFatalBefore(outcomes: seq<CycleOutcome>, k: nat)
    requires k <= |outcomes|
  {
    forall i :: 0 <= i < k ==> !IsFatal(outcomes[i])
  }

  /** What the loop does that can be seen: a line printed, or a child process spawned. */
  datatype Output = Printed(t: Transition) | Spawned(cmd: Command)

  /** A run of cycles: what it printed and spawned, how many polls it made, how it stopped. */
  datatype LoopResult = LoopResult(log: seq<Output>, attempts: nat, stoppedOnError: bool, pressed: bool)

  /** What `launchCommand` contributes to the log. */
  function Launched(positional: seq<string>): seq<Output>
  {
    match LaunchCommand(positional)
    case None => []
    case Some(c) => [Spawned(c)]
  }

  /** What a cycle prints and spawns for the transition it reported. */
  function React(t: Option<Transition>, positional: seq<string>): (out: seq<Output>)
    ensures out == [] <==> t.None?
    ensures t.Some? ==> out[0] == Printed(t.value)
    ensures t == Some(Released) ==> out == [Printed(Released)]
    ensures t == Some(Pressed) ==> out[1..] == Launched(positional)
  {
    match t
    case None => []
    case Some(Released) => [Printed(Released)]
    case Some(Pressed) => [Printed(Pressed)] + Launched(positional)
  }

  /**
   * The reference behaviour of the loop on `outcomes`, from stored state
   * `pressed`: every cycle is one poll; a fatal outcome ends the run.
   */
  function Run(pressed: bool, outcomes: seq<CycleOutcome>, positional: seq<string>): (r: LoopResult)
    ensures r.attempts <= |outcomes|
    ensures !r.stoppedOnError ==> r.attempts == |outcomes| && NoFatalBefore(outcomes, |outcomes|)
    ensures r.stoppedOnError ==> 0 < r.attempts && IsFatal(outcomes[r.attempts - 1]) &&
                                 NoFatalBefore(outcomes, r.attempts - 1)
    decreases |outcomes|
  {
    if outcomes == [] then LoopResult([], 0, false, pressed)
    else
      match outcomes[0]
      case ControlError => LoopResult([], 1, true, pressed)
      case ReadError => LoopResult([], 1, true, pressed)
      case TimedOut =>
        var r := Run(pressed, outcomes[1..], positional);
        assert forall i :: 1 <= i < |outcomes| ==> outcomes[i] == outcomes[1..][i - 1];
        r.(attempts := r.attempts + 1)
      case Sample(data) =>
        var r := Run(IsPressedNow(data), outcomes[1..], positional);
        assert forall i :: 1 <= i < |outcomes| ==> outcomes[i] == outcomes[1..][i - 1];
        r.(log := React(Edge(pressed, data), positional) + r.log, attempts := r.attempts + 1)
  }

  /** A run that continues after `log` and `attempts` have already been produced. */
  function After(log: seq<Output>, attempts: nat, r: LoopResult): LoopResult
  {
    r.(log := log + r.log, attempts := attempts + r.attempts)
  }

  /** The stored state after a cycle that did not throw. */
  function NextPressed(pressed: bool, o: CycleOutcome): bool
  {
    if o.Sample? then IsPressedNow(o.data) else pressed
  }

  /** What a cycle that did not throw prints and spawns. */
  function CycleLog(pressed: bool, o: CycleOutcome, positional: seq<string>): seq<Output>
  {
    if o.Sample? then React(Edge(pressed, o.data), positional) else []
  }

  /** A cycle that does not throw: its output is appended and the run goes on from the next outcome. */
  lemma RunStep(pressed: bool, log: seq<Output>, i: nat, outcomes: seq<CycleOutcome>, positional: seq<string>)
    requires i < |outcomes| && !IsFatal(outcomes[i])
    ensures After(log, i, Run(pressed, outcomes[i..], positional))
         == After(log + CycleLog(pressed, outcomes[i], positional), i + 1,
                  Run(NextPressed(pressed, outcomes[i]), outcomes[i + 1..], positional))
  {
    var rest := outcomes[i..];
    assert rest[0] == outcomes[i] && rest[1..] == outcomes[i + 1..];
    var out := CycleLog(pressed, outcomes[i], positional);
    var r := Run(NextPressed(pressed, outcomes[i]), outcomes[i + 1..], positional);
    if outcomes[i].Sample? {
      assert Run(pressed, rest, positional) == After(out, 1, r);
    } else {
      assert out == [] && Run(pressed, rest, positional) == After([], 1, r);
    }
    assert log + (out + r.log) == (log + out) + r.log;
  }

  /** A cycle that throws is the last one. */
  lemma RunStop(pressed: bool, log: seq<Output>, i: nat, outcomes: seq<CycleOutcome>, positional: seq<string>)
    requires i < |outcomes| && IsFatal(outcomes[i])
    ensures After(log, i, Run(pressed, outcomes[i..], positional)) == LoopResult(log, i + 1, true, pressed)
  {
  }

  /**
   * The end of a cycle that received a response: print PRESSED and launch
   * the command, or print RELEASED, or do nothing, as the transition says.
   */
  method Announce(t: Option<Transition>, positional: seq<string>) returns (out: seq<Output>)
    ensures out == React(t, positional)
  {
    out := [];
    if t == Some(Pressed) {
      out := out + [Printed(Pressed)];
      var command := LaunchCommand(positional);
      if command.Some? {
        out := out + [Spawned(command.value)];
      }
    } else if t == Some(Released) {
      out := out + [Printed(Released)];
    }
  }

  /**
   * `poll`, re-armed after every cycle until an outcome throws or the given
   * outcomes run out. The debounce state lives in a `Button` created here, as
   * `currentlyPressed` is created just before the first `poll()`.
   */
  method Poll(outcomes: seq<CycleOutcome>, positional: seq<string>)
    returns (log: seq<Output>, attempts: nat, stoppedOnError: bool)
    ensures log == Run(false, outcomes, positional).log
    ensures attempts == Run(false, outcomes, positional).attempts
    ensures stoppedOnError == Run(false, outcomes, positional).stoppedOnError
  {
    var button := new Button();
    log, attempts, stoppedOnError := [], 0, false;
    while attempts < |outcomes| && !stoppedOnError
      invariant attempts <= |outcomes|
      invariant !stoppedOnError ==>
        Run(false, outcomes, positional) == After(log, attempts, Run(button.currentlyPressed, outcomes[attempts..], positional))
      invariant stoppedOnError ==>
        Run(false, outcomes, positional) == LoopResult(log, attempts, true, button.currentlyPressed)
      decreases |outcomes| - attempts, !stoppedOnError
    {
      ghost var wasPressed := button.currentlyPressed;
      ghost var logBefore := log;
      var outcome := outcomes[attempts];
      if outcome.ControlError? || outcome.ReadError? {
        // The error is thrown: no further poll is scheduled.
        RunStop(wasPressed, log, attempts, outcomes, positional);
        stoppedOnError := true;
      } else {
        RunStep(wasPressed, log, attempts, outcomes, positional);
        if outcome.Sample? {
          var t := button.Observe(outcome.data);
          var out := Announce(t, positional);
          log := log + out;
        }
        // A timeout changes nothing; either way the next poll is scheduled.
        assert log == logBefore + CycleLog(wasPressed, outcome, positional);
      }
      attempts := attempts + 1;
    }
  }

  // ---------------------------------------------------------------------
  // Timeouts and fatal errors.
  // ---------------------------------------------------------------------

  /** `n` consecutive read timeouts. */
  function Timeouts(n: nat): (r: seq<CycleOutcome>)
    ensures |r| == n && forall i :: 0 <= i < n ==> r[i] == TimedOut
  {
    seq(n, _ => TimedOut)
  }

  /**
   * Timeouts only cost polls: they leave the stored state alone, print and
   * spawn nothing, and the loop goes on with the next cycle.
   */
  lemma {:induction false} TimeoutsSkipped(pressed: bool, n: nat, rest: seq<CycleOutcome>, positional: seq<string>)
    ensures Run(pressed, Timeouts(n) + rest, positional) == After([], n, Run(pressed, rest, positional))
  {
    if n == 0 {
      assert Timeouts(n) + rest == rest;
    } else {
      var outcomes := Timeouts(n) + rest;
      assert outcomes[0] == TimedOut;
      assert outcomes[1..] == Timeouts(n - 1) + rest;
      TimeoutsSkipped(pressed, n - 1, rest, positional);
    }
  }

  /** `n` timeouts then a pressed sample: `n + 1` polls, one PRESSED (and its launch), still polling. */
  lemma TimeoutsThenPress(n: nat, positional: seq<string>)
    ensures Run(false, Timeouts(n) + [Sample([DataWhenPressed])], positional)
         == LoopResult([Printed(Pressed)] + Launched(positional), n + 1, false, true)
  {
    TimeoutsSkipped(false, n, [Sample([DataWhenPressed])], positional);
  }

  /** A fatal outcome ends the run: it is the last poll, and what would have followed is never seen. */
  lemma {:induction false} FatalEndsRun(pressed: bool, before: seq<CycleOutcome>, fatal: CycleOutcome,
                                        after: seq<CycleOutcome>, positional: seq<string>)
    requires IsFatal(fatal)
    requires forall i :: 0 <= i < |before| ==> !IsFatal(before[i])
    ensures Run(pressed, before + [fatal] + after, positional) == Run(pressed, before + [fatal], positional)
    ensures Run(pressed, before + [fatal], positional).attempts == |before| + 1
    ensures Run(pressed, before + [fatal], positional).stoppedOnError
    decreases |before|
  {
    var whole, cut := before + [fatal] + after, before + [fatal];
    if before == [] {
      assert whole[0] == fatal && cut[0] == fatal;
    } else {
      assert whole[0] == before[0] && cut[0] == before[0];
      assert whole[1..] == before[1..] + [fatal] + after;
      assert cut[1..] == before[1..] + [fatal];
      var next := if before[0].Sample? then IsPressedNow(before[0].data) else pressed;
      FatalEndsRun(next, before[1..], fatal, after, positional);
    }
  }

  // ---------------------------------------------------------------------
  // The loop's output against the debounce state machine.
  // ---------------------------------------------------------------------

  /** The PRESSED and RELEASED lines of a log, in order. */
  function Transitions(log: seq<Output>): (ts: seq<Transition>)
    ensures |ts| <= |log|
  {
    if log == [] then []
    else if log[0].Printed? then [log[0].t] + Transitions(log[1..])
    else Transitions(log[1..])
  }

  lemma {:induction false} TransitionsAppend(a: seq<Output>, b: seq<Output>)
    ensures Transitions(a + b) == Transitions(a) + Transitions(b)
  {
    if a == [] {
      assert a + b == b;
    } else {
      assert (a + b)[0] == a[0] && (a + b)[1..] == a[1..] + b;
      TransitionsAppend(a[1..], b);
    }
  }

  /** The response buffers the loop receives: the samples before the first fatal outcome. */
  function Received(outcomes: seq<CycleOutcome>): (samples: seq<seq<byte>>)
    ensures |samples| <= |outcomes|
  {
    if outcomes == [] || IsFatal(outcomes[0]) then []
    else if outcomes[0].Sample? then [outcomes[0].data] + Received(outcomes[1..])
    else Received(outcomes[1..])
  }

  lemma FinalCons(wasPressed: bool, data: seq<byte>, samples: seq<seq<byte>>)
    ensures Final(wasPressed, [data] + samples) == Final(IsPressedNow(data), samples)
  {
  }

  /**
   * The loop prints exactly the transitions the debounce state machine
   * reports for the samples it receives, and ends in the state that leaves.
   */
  lemma {:induction false} LoopFollowsDebounce(pressed: bool, outcomes: seq<CycleOutcome>, positional: seq<string>)
    ensures Transitions(Run(pressed, outcomes, positional).log) == Events(pressed, Received(outcomes))
    ensures Run(pressed, outcomes, positional).pressed == Final(pressed, Received(outcomes))
    decreases |outcomes|
  {
    if outcomes != [] && !IsFatal(outcomes[0]) {
      match outcomes[0]
      case TimedOut =>
        LoopFollowsDebounce(pressed, outcomes[1..], positional);
      case Sample(data) =>
        var now := IsPressedNow(data);
        LoopFollowsDebounce(now, outcomes[1..], positional);
        SampleFollowsDebounce(pressed, data, outcomes, positional);
    }
  }

  /** The step of LoopFollowsDebounce for a cycle that received `data`. */
  lemma SampleFollowsDebounce(pressed: bool, data: seq<byte>, outcomes: seq<CycleOutcome>, positional: seq<string>)
    requires outcomes != [] && outcomes[0] == Sample(data)
    requires Transitions(Run(IsPressedNow(data), outcomes[1..], positional).log)
          == Events(IsPressedNow(data), Received(outcomes[1..]))
    requires Run(IsPressedNow(data), outcomes[1..], positional).pressed
          == Final(IsPressedNow(data), Received(outcomes[1..]))
    ensures Transitions(Run(pressed, outcomes, positional).log) == Events(pressed, Received(outcomes))
    ensures Run(pressed, outcomes, positional).pressed == Final(pressed, Received(outcomes))
  {
    var r := Run(IsPressedNow(data), outcomes[1..], positional);
    var later := Received(outcomes[1..]);
    SampleRun(pressed, data, outcomes, positional);
    assert Received(outcomes) == [data] + later;
    SampleTransitions(pressed, data, r.log, later, positional);
    FinalCons(pressed, data, later);
  }

  /** A run whose first outcome is a sample: that cycle's output, then the rest of the run. */
  lemma SampleRun(pressed: bool, data: seq<byte>, outcomes: seq<CycleOutcome>, positional: seq<string>)
    requires outcomes != [] && outcomes[0] == Sample(data)
    ensures Run(pressed, outcomes, positional).log
         == React(Edge(pressed, data), positional) + Run(IsPressedNow(data), outcomes[1..], positional).log
    ensures Run(pressed, outcomes, positional).pressed == Run(IsPressedNow(data), outcomes[1..], positional).pressed
  {
  }

  /** Printing a cycle's transition before a log that matches the debounce events keeps it matching. */
  lemma SampleTransitions(pressed: bool, data: seq<byte>, rest: seq<Output>, later: seq<seq<byte>>,
                          positional: seq<string>)
    requires Transitions(rest) == Events(IsPressedNow(data), later)
    ensures Transitions(React(Edge(pressed, data), positional) + rest) == Events(pressed, [data] + later)
  {
    var t := Edge(pressed, data);
    TransitionsAppend(React(t, positional), rest);
    TransitionsReact(t, positional);
    assert ([data] + later)[0] == data && ([data] + later)[1..] == later;
  }

  /** A cycle's output holds the transition it reported as its only PRESSED or RELEASED line. */
  lemma TransitionsReact(t: Option<Transition>, positional: seq<string>)
    ensures Transitions(React(t, positional)) == if t.Some? then [t.value] else []
  {
  }

  /** From start-up, the loop's PRESSED and RELEASED lines alternate, beginning with PRESSED. */
  lemma LoopTransitionsAlternate(outcomes: seq<CycleOutcome>, positional: seq<string>)
    ensures AlternatesFrom(false, Transitions(Run(false, outcomes, positional).log))
  {
    LoopFollowsDebounce(false, outcomes, positional);
    EventsAlternate(false, Received(outcomes));
  }

  // ---------------------------------------------------------------------
  // Launches.
  // ---------------------------------------------------------------------

  /**
   * Every PRESSED line is followed by the launch `launchCommand` chooses (if
   * any), and nothing is spawned anywhere else.
   */
  predicate Announced(log: seq<Output>, positional: seq<string>)
    decreases |log|
  {
    if log == [] then true
    else if log[0] == Printed(Released) then Announced(log[1..], positional)
    else if log[0] == Printed(Pressed) then
      var launch := Launched(positional);
      |log| >= 1 + |launch| && log[1..1 + |launch|] == launch && Announced(log[1 + |launch|..], positional)
    else false
  }

  lemma {:induction false} AnnouncedAfterReact(t: Option<Transition>, rest: seq<Output>, positional: seq<string>)
    requires Announced(rest, positional)
    ensures Announced(React(t, positional) + rest, positional)
  {
    var log := React(t, positional) + rest;
    match t
    case None =>
      assert log == rest;
    case Some(Released) =>
      assert log[0] == Printed(Released) && log[1..] == rest;
    case Some(Pressed) =>
      var launch := Launched(positional);
      assert log[0] == Printed(Pressed);
      assert log[1..1 + |launch|] == launch && log[1 + |launch|..] == rest;
  }

  /** Every log the loop produces has each launch right after its PRESSED line. */
  lemma {:induction false} RunAnnounced(pressed: bool, outcomes: seq<CycleOutcome>, positional: seq<string>)
    ensures Announced(Run(pressed, outcomes, positional).log, positional)
    decreases |outcomes|
  {
    if outcomes != [] {
      match outcomes[0]
      case ControlError =>
      case ReadError =>
      case TimedOut =>
        RunAnnounced(pressed, outcomes[1..], positional);
      case Sample(data) =>
        RunAnnounced(IsPressedNow(data), outcomes[1..], positional);
        AnnouncedAfterReact(Edge(pressed, data), Run(IsPressedNow(data), outcomes[1..], positional).log, positional);
    }
  }

  /** In an announced log, a spawn is the chosen command, right after a PRESSED line. */
  lemma {:induction false} SpawnFollowsPress(log: seq<Output>, positional: seq<string>, i: nat)
    requires Announced(log, positional)
    requires i < |log| && log[i].Spawned?
    ensures 0 < i && log[i - 1] == Printed(Pressed)
    ensures positional != [] && LaunchCommand(positional) == Some(log[i].cmd)
    decreases |log|
  {
    var launch := Launched(positional);
    if log[0] == Printed(Released) {
      SpawnFollowsPress(log[1..], positional, i - 1);
    } else if i > |launch| {
      SpawnFollowsPress(log[1 + |launch|..], positional, i - 1 - |launch|);
    } else {
      assert log[1..1 + |launch|][i - 1] == log[i];
    }
  }
}
