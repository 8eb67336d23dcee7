/**
 * The driver's top level: run setup on what `findByIds` returned and, only
 * when every check passed, start polling with a fresh debounce state.
 */
module Session {
  import opened Wrappers
  import opened Setup
  import opened PollLoop

  /**
   * One run of the driver. `outcomes` are the outcomes the poll cycles would
   * produce if polling starts; `positional` are the command-line arguments
   * that name the command to launch on a press.
   */
  method Drive(found: Option<Device>, detach: bool, timeout: int,
               positional: seq<string>, outcomes: seq<CycleOutcome>)
    returns (outcome: SetupOutcome, effects: seq<Effect>,
             log: seq<Output>, attempts: nat, stoppedOnError: bool)
    ensures outcome == SetupSpec(found, detach)
    ensures effects == EffectsSpec(found, detach, timeout)
    ensures outcome != Ready ==> log == [] && attempts == 0 && !stoppedOnError
    ensures outcome == Ready ==>
      log == Run(false, outcomes, positional).log &&
      attempts == Run(false, outcomes, positional).attempts &&
      stoppedOnError == Run(false, outcomes, positional).stoppedOnError
  {
    outcome, effects := RunSetup(found, detach, timeout);
    log, attempts, stoppedOnError := [], 0, false;
    if outcome == Ready {
      log, attempts, stoppedOnError := Poll(outcomes, positional);
    }
  }
}
