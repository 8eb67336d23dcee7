# Hulk Button: a verified model of the USB button driver

The driver talks to a "Dream Cheeky" USB button. It finds the device by
vendor and product id, opens it, checks that it has one interface with one
endpoint, detaches a bound kernel driver if `-d` allows it (exit code 31 if
not), claims the interface and sets the endpoint timeout, and checks that the
endpoint is an interrupt IN endpoint. It then polls forever. Each cycle sends
a fixed command by control transfer and reads eight bytes from the endpoint.
A first byte of 26 means "pressed" and anything else "released". The driver
prints `PRESSED` or `RELEASED` only when that reading differs from the stored
state, and on a press it launches the command named by its positional
arguments. A read timeout just schedules the next cycle. Any other transfer
error is thrown and ends the loop.

The model replaces the USB library by values:
- a `Device` record holds what the device's descriptors report and how `open()` ends;
- a sequence of `CycleOutcome`s holds what each poll cycle would produce.

What the driver does is recorded as data:
- setup returns a `SetupOutcome` and a log of its side effects (detach, claim, set timeout);
- the poll loop returns a log of printed transitions and spawned commands, the number of polls it made, and whether it stopped on an error.

Modules:
- `Wrappers` (wrappers.dfy): `Option` and `byte`.
- `Launch` (launch.dfy): what `launchCommand` spawns.
- `Debounce` (debounce.dfy): the stored state as a `Button` class with a `currentlyPressed` field and an `Observe` method, the specification functions `Edge`, `Events` and `Final`, and the alternation lemmas.
- `Setup` (setup.dfy): the start-up checks as an imperative method `RunSetup`. It is proved against `SetupSpec`/`EffectsSpec`, a reference definition in which the checks are a list applied in order and the first failing check decides the outcome.
- `PollLoop` (poll_loop.dfy): the loop as a method `Poll` over a `Button` object. It is proved against the reference function `Run`, and the lemmas about timeouts, errors, debouncing and launches are stated over `Run`.
- `Session` (session.dfy): setup, and polling only when setup is ready.

The model follows index.js on these points:
- The endpoint timeout is set right after the claim, before the direction and transfer-type checks (index.js:113-122).
- Only an `open()` error with libusb's access-denied number (-3) stops setup. Every other `open()` error is swallowed, and setup goes on as if the device had opened (index.js:85-92).
- The claimed interface is never released (index.js has no release call), so no release is modelled.
- A response buffer with no element 0 reads as released, because `undefined === 26` is false in JavaScript.

## Model

| member | source | states |
|---|---|---|
| Launch.LaunchCommand | index.js:185-195 | nothing is spawned exactly when the positional list is empty; otherwise the program is element 0 and the arguments are the remaining elements, in order |
| Launch.LaunchInvocation | index.js:185-195 | any command with any arguments is what `launchCommand` spawns for the list `[program] + args` (round trip) |
| Debounce.IsPressedNow | index.js:159 | a non-empty buffer reads as pressed iff its first byte is 26; an empty buffer reads as released |
| Debounce.Edge | index.js:159-168 | a transition is reported iff the classification (first byte == 26) differs from the stored state; PRESSED iff the state was released and the sample reads pressed; RELEASED iff the state was pressed and the sample reads released |
| Debounce.Button.constructor | index.js:135 | the stored state starts as not pressed |
| Debounce.Button.Observe | index.js:159-168 | after a sample the stored state equals the sample's classification, and the transition returned is `Edge` of the previous state and the sample |
| Debounce.EventsAlternate | index.js:159-168 | over any sample sequence the reported transitions alternate, beginning with the change away from the starting state; the final state is the starting state flipped once per transition |
| Debounce.PressedReleasedAlternate | index.js:135-168 | from the initial not-pressed state the first transition is PRESSED, and the i-th is PRESSED iff i is even |
| Debounce.EventsAppend | index.js:159-169 | feeding two sample runs in turn reports the first run's transitions followed by the second run's, from the state the first run leaves |
| Debounce.RepeatIsSilent | index.js:160 | a sample equal to the one before it reports nothing |
| Debounce.FirstPressReported | index.js:135-164 | from the initial state a first sample of 26 reports exactly one PRESSED |
| Debounce.FirstReleaseSilent | index.js:135-160 | from the initial state a first sample of 27 reports nothing |
| Debounce.PressReleasePress | index.js:159-168 | samples 26, 26, 27, 27, 26 report exactly PRESSED, RELEASED, PRESSED |
| Setup.TerminationOf | index.js:23-25 | NotFound exits 30, DriverPresent exits 31, AccessDenied exits 32 (each iff); the interface-count, endpoint-count, direction and transfer-type failures, and only they, end in an uncaught thrown error; Ready alone goes on to polling |
| Setup.ExitCodesDistinct | index.js:23-25 | two setup failures that exit with the same code are the same failure |
| Setup.Failure | index.js:88-121 | each check fails exactly on its source condition (access-denied open, interface count not one, endpoint count not one, bound driver without `-d`, direction not IN, transfer type not interrupt) and reports that check's own failure; no check reports Ready or NotFound |
| Setup.FirstFailure | index.js:85-122 | the ordered checks yield Ready iff no check in the list fails |
| Setup.FirstFailureAt | index.js:85-122 | when check k fails and every earlier check passes, check k's failure is the outcome, whatever later checks say |
| Setup.FirstFailureAppend | index.js:85-122 | running two lists of checks in turn gives the first list's failure, or else the second list's outcome |
| Setup.RunSetup | index.js:80-183 | the outcome is the first failing check in the fixed order (found, open permitted, one interface, one endpoint, driver releasable, direction in, interrupt transfer), else Ready; the effects are detach (only if a driver is bound), then claim, then set timeout, made exactly when the checks up to the driver check pass |
| Setup.OtherOpenErrorIgnored | index.js:85-92 | an `open()` error other than access denied changes neither the outcome nor the effects |
| Setup.InterfaceCountCheckedFirst | index.js:94-96 | any interface count other than one fails with that count whatever the endpoints and driver, and touches nothing |
| Setup.EndpointCountCheckedBeforeDriver | index.js:99-103 | with one interface, an endpoint count other than one fails with that count before the driver check, so nothing is detached or claimed |
| Setup.DriverPresentStops | index.js:103-113 | a bound kernel driver without `-d` ends setup with DriverPresent, exit code 31, and no claim |
| Setup.DriverDetachedThenClaimed | index.js:103-117 | a bound kernel driver with `-d` is detached, and then the interface is claimed and the timeout set, in that order |
| Setup.NoDriverNoDetach | index.js:103-107 | with no kernel driver bound, nothing is ever detached |
| Setup.ClaimPrecedesEndpointChecks | index.js:113-122 | whenever setup reaches the direction or transfer-type check, the claim and then the timeout are the last two effects |
| Setup.EarlyFailureTouchesNothing | index.js:85-113 | a failure before the claim leaves no effect at all |
| Setup.DirectionCheckedBeforeTransferType | index.js:119-122 | an endpoint that is not IN fails on its direction whatever its transfer type |
| Setup.ReadyIff | index.js:82-123 | setup is ready exactly when the device is found, open is not access-denied, it has one interface and one endpoint, a bound driver may be detached, and the endpoint is interrupt IN |
| PollLoop.React | index.js:160-167 | no transition prints nothing; a RELEASED transition prints only RELEASED; a PRESSED transition prints PRESSED first, followed by exactly the launch `launchCommand` chooses |
| PollLoop.Announce | index.js:160-167 | the lines a cycle emits for a transition are exactly those `React` prescribes: PRESSED then the chosen launch, RELEASED alone, or nothing |
| PollLoop.Run | index.js:137-174 | a run stops on an error iff some outcome is fatal; then the last poll made is the first fatal outcome; otherwise every outcome is polled |
| PollLoop.Poll | index.js:135-176 | the loop, mutating a `Button`, prints, spawns, polls and stops exactly as the reference run from the not-pressed state |
| PollLoop.TimeoutsSkipped | index.js:151-154 | timeouts add one poll each and change nothing else: no state change, no output, and the loop goes on |
| PollLoop.TimeoutsThenPress | index.js:151-169 | N timeouts followed by a sample of 26 make N+1 polls, print one PRESSED followed by its launch, leave the state pressed, and do not stop |
| PollLoop.FatalEndsRun | index.js:146-157 | a control-transfer error or non-timeout read error is the last poll: outcomes after it change nothing, and the number of polls is its position plus one |
| PollLoop.LoopFollowsDebounce | index.js:158-170 | the PRESSED/RELEASED lines the loop prints are the debounce transitions of the samples received before the first fatal outcome, and the loop's final state is the debounce final state |
| PollLoop.LoopTransitionsAlternate | index.js:135-174 | from start-up the loop's PRESSED and RELEASED lines alternate, beginning with PRESSED |
| PollLoop.RunAnnounced | index.js:162-164 | in every log of the loop, each PRESSED line is followed by exactly the launch `launchCommand` chooses, and a RELEASED line by none |
| PollLoop.SpawnFollowsPress | index.js:162-195 | every spawn in such a log comes right after a PRESSED line, needs a non-empty positional list, and runs the command `launchCommand` chooses |
| Session.Drive | index.js:80-183 | setup behaves as its reference; no poll is made unless setup is ready; when it is, the loop behaves as its reference |

## Left out

- USB I/O (`findByIds`, `open`, `controlTransfer`, `transfer`, `isKernelDriverActive`, `detachKernelDriver`, `claim`): these are calls into node-usb and libusb. They appear only as the `Device` record, the cycle outcomes and the effect log.
- node-usb's own behaviour around a swallowed `open()` error (an unopened device may have no interface list, and reading its length throws): the model reads the interface list from the descriptor record whatever `open()` did.
- `interface.endpoint(address)` is taken to return the endpoint whose address was just read, so the model uses the sole endpoint directly.
- Command-line parsing with yargs and the hexadecimal conversion of `-v`/`-p` (index.js:32-78): library behaviour. `-d`, `-t` and the positional arguments are parameters.
- Process creation by `child_process.spawn` with inherited stdio: only the choice of program and arguments is modelled.
- `setTimeout` scheduling and the poll interval and timeout values: a re-armed poll is "the next outcome in the sequence". The loop is unbounded in the source; the model runs it over a finite sequence of outcomes, and running out of outcomes means "still polling".
- The text printed by `console.log`/`console.error`, the error messages of thrown errors, and the "Found button" line: transitions are kept as labels, failures as outcome tags.
- The exit status of an uncaught exception: it is Node's, not the driver's, so `Termination.Uncaught` carries no code.
- The poll command buffer and the control-transfer parameters (index.js:124-133): constants that no decision depends on.
- Releasing the interface on shutdown: the source never does it.
- The access-denied test reads the caught error's `errnum` field (index.js:88), while the read callback reads `errno` (index.js:153). The model takes `errnum` as written. If node-usb sets only `errno`, the access-denied exit can never happen; node-usb is not part of this model, so this stays unconfirmed.
- The comments at index.js:24 and index.js:109 say exit code 31 happens when "-d" is used, but the code exits with 31 when `argv.d` is false. The model follows the code (Setup.DriverPresentStops).
